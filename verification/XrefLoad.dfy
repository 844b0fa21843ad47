/** Reloading a cross-reference file: a depth-first walk of the stored graph, memoised by symbol id. */
module XrefLoad {
  import opened Basics
  import opened XrefFile

  /** The stored records by id; `None` where the record's tag is wrong. */
  type Db = seq<Option<SymRec>>

  /** Every readable record is filed under its own id, and its links and source are in range. */
  ghost predicate WfDb(db: Db, nfiles: nat) {
    forall n :: 0 <= n < |db| && db[n].Some? ==>
      db[n].value.id == n && db[n].value.fid < nfiles
      && InRange(db[n].value.calls, |db|) && InRange(db[n].value.calledBy, |db|)
  }

  ghost predicate InRange(ids: seq<u32>, n: nat) {
    forall j :: 0 <= j < |ids| ==> ids[j] < n
  }

  ghost predicate LinksInRange(db: Db) {
    forall n :: 0 <= n < |db| && db[n].Some? ==>
      InRange(db[n].value.calls, |db|) && InRange(db[n].value.calledBy, |db|)
  }

  // ---------- the order in which symbols are loaded ----------

  /** Ids already loaded: in range and without repetition. */
  ghost predicate Seen(seen: seq<nat>, n: nat) {
    (forall i :: 0 <= i < |seen| ==> seen[i] < n) && (forall i, j :: 0 <= i < j < |seen| ==> seen[i] != seen[j])
  }

  lemma {:induction false} SeenBound(seen: seq<nat>, n: nat)
    requires Seen(seen, n)
    ensures |seen| <= n
    decreases n
  {
    if seen != [] {
      var first := seen[0];
      if exists k :: 0 <= k < |seen| && seen[k] == n - 1 {
        var k :| 0 <= k < |seen| && seen[k] == n - 1;
        SeenBound(seen[..k] + seen[k + 1..], n - 1);
      } else {
        SeenBound(seen, n - 1);
      }
    }
  }

  lemma SeenMore(seen: seq<nat>, k: nat, n: nat)
    requires Seen(seen, n) && k < n && k !in seen
    ensures Seen(seen + [k], n) && |seen| < n
  {
    SeenBound(seen + [k], n);
  }

  /** Depth first: a symbol, then everything it calls, then everything that calls it. */
  ghost function Visit(db: Db, seen: seq<nat>, k: nat): (r: seq<nat>)
    requires Seen(seen, |db|) && k < |db|
    requires LinksInRange(db)
    ensures Seen(r, |db|) && seen <= r
    decreases |db| - |seen|, 0
  {
    if k in seen || db[k].None? then seen else
      SeenMore(seen, k, |db|);
      VisitAll(db, VisitAll(db, seen + [k], db[k].value.calls), db[k].value.calledBy)
  }

  ghost function VisitAll(db: Db, seen: seq<nat>, ids: seq<u32>): (r: seq<nat>)
    requires Seen(seen, |db|) && InRange(ids, |db|)
    requires LinksInRange(db)
    ensures Seen(r, |db|) && seen <= r
    decreases |db| - |seen|, 1 + |ids|
  {
    if ids == [] then seen else
      var before := VisitAll(db, seen, ids[..|ids| - 1]);
      SeenBound(before, |db|);
      Visit(db, before, ids[|ids| - 1])
  }

  lemma VisitMore(db: Db, seen: seq<nat>, ids: seq<u32>, id: u32)
    requires Seen(seen, |db|) && InRange(ids, |db|) && id < |db|
    requires LinksInRange(db)
    ensures InRange(ids + [id], |db|) && VisitAll(db, seen, ids + [id]) == Visit(db, VisitAll(db, seen, ids), id)
  {
    assert (ids + [id])[..|ids|] == ids;
  }

  // ---------- the loader ----------

  /** `fseek` to an offset and read one symbol. */
  function RecordAt(file: seq<byte>, at: nat): Option<SymRec> {
    if at > |file| then None else
      match GetSym(file[at..])
      case Bad => None
      case Good(r, _) => Some(r)
  }

  /** The index leads to the records of `db`. */
  ghost predicate Reads(file: seq<byte>, sindex: seq<u32>, db: Db) {
    |sindex| == |db| && forall n {:trigger sindex[n]} :: 0 <= n < |db| ==> db[n] == RecordAt(file, sindex[n])
  }

  /** A reloaded symbol; `file` is the position of its source in the file cache. */
  class Node {
    const id: nat
    const flags: u32
    const name: Name
    const file: nat
    const line: u32
    var calls: seq<Node?>
    var calledBy: seq<Node?>

    ghost predicate Holds(r: SymRec) {
      id == r.id && flags == r.flags && name == r.name && file == r.fid && line == r.line
    }

    constructor (r: SymRec)
      ensures Holds(r) && calls == [] && calledBy == []
    {
      id, flags, name, file, line := r.id, r.flags, r.name, r.fid, r.line;
      calls, calledBy := [], [];
    }
  }

  class Loader {
    const file: seq<byte>
    const sindex: seq<u32>
    const cache: array<Node?>
    /** The ids in the order in which their symbols entered the root table. */
    var added: seq<nat>
    ghost const db: Db
    ghost const nfiles: nat

    ghost predicate Valid()
      reads this, cache
    {
      && |sindex| == |db| == cache.Length < 0x8000_0000 && WfDb(db, nfiles)
      && Reads(file, sindex, db)
      && Seen(added, |db|)
      && (forall n :: 0 <= n < |db| ==> Slot(n))
    }

    /** A filled slot holds the symbol of its own id, and a corrupted record is never loaded. */
    ghost predicate Slot(n: nat)
      requires n < cache.Length == |db|
      reads this, cache
    {
      && (cache[n] != null <==> n in added)
      && (cache[n] != null ==> db[n].Some? && cache[n].Holds(db[n].value))
    }

    /** `l` holds the cached symbols of `ids`, in order; only corrupted ones are missing. */
    ghost predicate Points(l: seq<Node?>, ids: seq<u32>)
      reads this, cache
    {
      && |l| == |ids| && InRange(ids, cache.Length) && cache.Length == |db|
      && (forall j :: 0 <= j < |l| ==> l[j] == cache[ids[j]])
      && (forall j :: 0 <= j < |l| ==> (l[j] == null <==> db[ids[j]].None?))
    }

    /** The symbol in slot `n` is fully linked. */
    ghost predicate Complete(n: nat)
      requires n < cache.Length == |db|
      reads this, cache, cache[n]
    {
      && cache[n] != null && db[n].Some?
      && Points(cache[n].calls, db[n].value.calls) && Points(cache[n].calledBy, db[n].value.calledBy)
    }

    constructor (file: seq<byte>, sindex: seq<u32>, nfiles: nat, ghost db: Db)
      requires |sindex| == |db| < 0x8000_0000 && WfDb(db, nfiles)
      requires Reads(file, sindex, db)
      ensures Valid() && fresh(cache) && added == [] && this.db == db && this.nfiles == nfiles
      ensures forall i :: 0 <= i < cache.Length ==> cache[i] == null
    {
      this.file, this.sindex, this.nfiles, this.db := file, sindex, nfiles, db;
      cache := new Node?[|sindex|](_ => null);
      added := [];
    }

    /** Since the cache was `was`, slots have only been filled, and every one filled since is fully linked. */
    ghost predicate Grew(was: seq<Node?>)
      requires cache.Length == |db|
      reads *
    {
      && |was| == cache.Length
      && (forall i :: 0 <= i < |was| && was[i] != null ==> cache[i] == was[i])
      && (forall i :: 0 <= i < |was| && was[i] == null && cache[i] != null ==> Complete(i))
    }

    /** Allocates the symbol of an empty slot and enters it before any of its links is followed. */
    method Enter(n: nat, r: SymRec) returns (node: Node)
      requires Valid() && n < |db| && db[n] == Some(r) && n !in added
      modifies this`added, cache
      ensures Valid() && fresh(node) && added == old(added) + [n] && |added| <= |db|
      ensures cache[..] == old(cache[..])[n := node] && old(cache[n]) == null
    {
      SeenMore(added, n, |db|);
      assert Slot(n) && r.id == n;
      node := new Node(r);
      cache[r.id] := node;
      added := added + [n];
      forall i | 0 <= i < |db| ensures Slot(i) {
        assert i != n ==> old(Slot(i));
      }
    }

    lemma OwnIds()
      requires Valid()
      ensures forall i :: 0 <= i < |db| && cache[i] != null ==> cache[i].id == i
    {
      forall i | 0 <= i < |db| && cache[i] != null ensures cache[i].id == i { assert Slot(i); }
    }

    method ReadRecord(n: nat) returns (rec: Option<SymRec>)
      requires Valid() && n < |db|
      ensures rec == db[n]
    {
      rec := RecordAt(file, sindex[n]);
    }

    /** `load_symbol_from_file`. It ends because each descent first fills a slot that was empty. */
    method LoadSymbol(n: nat) returns (sym: Node?)
      requires Valid() && n < |db|
      modifies this`added, cache
      ensures Valid() && sym == cache[n] && (sym == null <==> db[n].None?)
      ensures Grew(old(cache[..]))
      ensures added == Visit(db, old(added), n)
      decreases |db| - |added|, 0
    {
      assert Slot(n);
      sym := cache[n];
      if sym != null { return; }
      var rec := ReadRecord(n);
      if rec.None? { return; }
      var r := rec.value;
      ghost var was := cache[..];
      var node := Enter(n, r);
      Connect(n, node, r);
      GrewFilled(was, n, node);
      sym := node;
    }

    lemma GrewFilled(was: seq<Node?>, n: nat, node: Node)
      requires n < |was| == cache.Length == |db| && was[n] == null && Complete(n) && Grew(was[n := node])
      ensures Grew(was)
    {
    }

    /** Links that lead to filled slots stay right while slots are only filled. */
    lemma PointsStay(l: seq<Node?>, ids: seq<u32>, was: seq<Node?>)
      requires Valid() && |was| == cache.Length && forall i :: 0 <= i < |was| && was[i] != null ==> cache[i] == was[i]
      requires |l| == |ids| && InRange(ids, |db|)
      requires forall j :: 0 <= j < |l| ==> l[j] == was[ids[j]] && (l[j] == null <==> db[ids[j]].None?)
      ensures Points(l, ids)
    {
      forall j | 0 <= j < |l| ensures l[j] == cache[ids[j]] {
        assert Slot(ids[j]);
      }
    }

    /** What has grown twice has grown, even when symbols of slots filled at first are linked meanwhile. */
    twostate lemma GrewAgain(was: seq<Node?>)
      requires old(Valid()) && Valid() && old(Grew(was)) && Grew(old(cache[..]))
      requires forall i :: 0 <= i < |was| && was[i] == null && old(cache[i]) != null ==> unchanged(old(cache[i]))
      ensures Grew(was)
    {
      var mid := old(cache[..]);
      forall i | 0 <= i < |was| && was[i] != null ensures cache[i] == was[i] { assert mid[i] == was[i]; }
      forall i | 0 <= i < |was| && was[i] == null && cache[i] != null ensures Complete(i) {
        if mid[i] != null {
          assert mid[i] == cache[i] && old(Complete(i));
          PointsStay(cache[i].calls, db[i].value.calls, mid);
          PointsStay(cache[i].calledBy, db[i].value.calledBy, mid);
        }
      }
    }

    /** Follows the links of a symbol just entered. */
    method Connect(n: nat, node: Node, r: SymRec)
      requires Valid() && n < |db| && db[n] == Some(r) && cache[n] == node
      modifies this`added, cache, node
      ensures Valid() && cache[n] == node && Complete(n)
      ensures Grew(old(cache[..]))
      ensures added == VisitAll(db, VisitAll(db, old(added), r.calls), r.calledBy)
      decreases |db| - |added|, 3
    {
      ConnectCalls(n, node, r);
      SeenBound(added, |db|);
      ghost var mid := cache[..];
      label Called:
      ConnectCalledBy(n, node, r);
      PointsStay(node.calls, r.calls, mid);
      OwnIds();
      GrewAgain@Called(old(cache[..]));
    }

    method ConnectCalls(n: nat, node: Node, r: SymRec)
      requires Valid() && n < |db| && db[n] == Some(r) && cache[n] == node
      modifies this`added, cache, node`calls
      ensures Valid() && cache[n] == node && Points(node.calls, r.calls)
      ensures Grew(old(cache[..]))
      ensures added == VisitAll(db, old(added), r.calls)
      decreases |db| - |added|, 2
    {
      var calls := LoadLinks(r.calls);
      OwnIds();
      label Linking:
      node.calls := calls;
      GrewAgain@Linking(old(cache[..]));
    }

    method ConnectCalledBy(n: nat, node: Node, r: SymRec)
      requires Valid() && n < |db| && db[n] == Some(r) && cache[n] == node
      modifies this`added, cache, node`calledBy
      ensures Valid() && cache[n] == node && Points(node.calledBy, r.calledBy)
      ensures Grew(old(cache[..]))
      ensures added == VisitAll(db, old(added), r.calledBy)
      decreases |db| - |added|, 2
    {
      var calledBy := LoadLinks(r.calledBy);
      OwnIds();
      label Linking:
      node.calledBy := calledBy;
      GrewAgain@Linking(old(cache[..]));
    }

    lemma PointsMore(l: seq<Node?>, ids: seq<u32>, c: Node?, id: u32)
      requires Points(l, ids) && id < |db| && c == cache[id] && (c == null <==> db[id].None?)
      ensures Points(l + [c], ids + [id])
    {
    }

    /** The loop that turns a list of ids into a list of symbols. */
    method LoadLinks(ids: seq<u32>) returns (l: seq<Node?>)
      requires Valid() && InRange(ids, |db|)
      modifies this`added, cache
      ensures Valid() && Points(l, ids)
      ensures Grew(old(cache[..]))
      ensures added == VisitAll(db, old(added), ids)
      decreases |db| - |added|, 1
    {
      l := [];
      while |l| < |ids|
        invariant Valid() && |l| <= |ids| && Points(l, ids[..|l|])
        invariant Grew(old(cache[..]))
        invariant added == VisitAll(db, old(added), ids[..|l|])
        decreases |ids| - |l|
      {
        ghost var front, id, mid := ids[..|l|], ids[|l|], cache[..];
        assert ids[..|l| + 1] == front + [id];
        SeenBound(added, |db|);
        VisitMore(db, old(added), front, id);
        label Before:
        var c := LoadSymbol(ids[|l|]);
        GrewAgain@Before(old(cache[..]));
        PointsStay(l, front, mid);
        PointsMore(l, front, c, id);
        l := l + [c];
      }
      assert ids[..|l|] == ids;
    }

    /**
     * The loop of `xref_load_file` over every id: afterwards every readable symbol is present, as stored and
     * fully linked.
     */
    method LoadAll()
      requires Valid() && added == [] && forall i :: 0 <= i < cache.Length ==> cache[i] == null
      modifies this`added, cache
      ensures Valid() && forall n :: 0 <= n < |db| ==> Loaded(n)
      ensures added == VisitAll(db, [], Ids(|db|))
    {
      var all := LoadLinks(Ids(cache.Length));
      Finished(old(cache[..]), all);
    }

    lemma Finished(was: seq<Node?>, all: seq<Node?>)
      requires Valid() && Points(all, Ids(|db|)) && Grew(was)
      requires forall i :: 0 <= i < |was| ==> was[i] == null
      ensures forall n :: 0 <= n < |db| ==> Loaded(n)
    {
      forall n | 0 <= n < |db| ensures Loaded(n) {
        assert Slot(n);
        assert all[n] == cache[Ids(|db|)[n]];
      }
    }

    /** Slot `n` in the finished cache. */
    ghost predicate Loaded(n: nat)
      requires n < cache.Length == |db|
      reads this, cache, cache[n]
    {
      && (cache[n] == null <==> db[n].None?)
      && (cache[n] != null ==> cache[n].Holds(db[n].value) && Complete(n))
    }
  }

  /** All ids, in order. */
  function Ids(n: nat): (ids: seq<u32>)
    requires n < 0x8000_0000
    ensures |ids| == n && forall i :: 0 <= i < n ==> ids[i] == i
  {
    seq(n, i requires 0 <= i < n => i)
  }

  // ---------- a saved file ----------

  /** The records of a saved file, all of them readable. */
  ghost function Stored(rs: seq<SymRec>): (db: Db)
    ensures |db| == |rs|
  {
    seq(|rs|, i requires 0 <= i < |rs| => Some(rs[i]))
  }

  ghost predicate Loadable(fs: seq<Name>, rs: seq<SymRec>) {
    && (forall i :: 0 <= i < |fs| ==> |fs[i]| < 0x100)
    && (forall i :: 0 <= i < |rs| ==> Storable(rs[i]))
    && |Image(fs, rs)| < 0x8000_0000
    && WfDb(Stored(rs), |fs|)
  }

  lemma SeekRecord(fs: seq<Name>, rs: seq<SymRec>, i: nat)
    requires i < |rs| && Storable(rs[i])
    ensures RecordAt(Image(fs, rs), Index(fs, rs)[3 + |fs| + i]) == Some(rs[i])
  {
    SeekSym(fs, rs, i);
  }

  lemma SavedReads(fs: seq<Name>, rs: seq<SymRec>, sindex: seq<u32>)
    requires Loadable(fs, rs) && sindex == Index(fs, rs)[3 + |fs|..]
    ensures Reads(Image(fs, rs), sindex, Stored(rs))
  {
    forall n | 0 <= n < |rs| ensures Stored(rs)[n] == RecordAt(Image(fs, rs), sindex[n]) {
      SeekRecord(fs, rs, n);
      assert sindex[n] == Index(fs, rs)[3 + |fs| + n];
    }
  }

  lemma {:induction false} WordsPrefix(m: nat, n: nat, s: seq<byte>)
    requires m <= n && GetWords(n, s).Good?
    ensures GetWords(m, s).Good? && |GetWords(m, s).val| == m && |GetWords(n, s).val| == n
    ensures GetWords(m, s).val == GetWords(n, s).val[..m]
  {
    if n > 0 { WordsPrefix(if m > 0 then m - 1 else 0, n - 1, GetWord(s).rest); }
  }

  /** The index as `xref_load_file` reads it: the two counts first, then the whole. */
  method ReadIndex(file: seq<byte>, ghost fs: seq<Name>, ghost rs: seq<SymRec>) returns (nfiles: nat, index: seq<u32>)
    requires file == Image(fs, rs) && |Image(fs, rs)| < 0x8000_0000
    ensures nfiles == |fs| && index == Index(fs, rs)
  {
    IndexReads(fs, rs);
    WordsPrefix(3, 3 + |fs| + |rs|, file);
    var head := GetWords(3, file);
    nfiles := head.val[1];
    var nsyms := head.val[2];
    assert nfiles == Index(fs, rs)[1] && nsyms == Index(fs, rs)[2];
    index := GetWords(3 + nfiles + nsyms, file).val;
  }

  method ReadNames(file: seq<byte>, findex: seq<u32>, ghost fs: seq<Name>, ghost rs: seq<SymRec>)
    returns (names: seq<Name>)
    requires file == Image(fs, rs) && findex == Index(fs, rs)[3..3 + |fs|]
    requires forall i :: 0 <= i < |fs| ==> |fs[i]| < 0x100
    ensures names == fs
  {
    names := [];
    while |names| < |findex|
      invariant |names| <= |fs| && names == fs[..|names|]
      decreases |findex| - |names|
    {
      var i := |names|;
      SeekName(fs, rs, i);
      assert findex[i] == Index(fs, rs)[3 + i];
      var name := GetName(file[findex[i]..]);
      names := names + [CString(name.val)];
    }
  }

  /**
   * Loading a saved file gives back its source names and, for each id, the stored symbol linked to the symbols
   * its ids name.
   */
  method LoadFile(file: seq<byte>, ghost fs: seq<Name>, ghost rs: seq<SymRec>)
    returns (names: seq<Name>, loader: Loader)
    requires file == Image(fs, rs) && Loadable(fs, rs)
    ensures names == fs && fresh(loader) && fresh(loader.cache)
    ensures loader.Valid() && loader.db == Stored(rs) && loader.added == VisitAll(Stored(rs), [], Ids(|rs|))
    ensures forall n :: 0 <= n < |rs| ==> loader.cache[n] != null && loader.Loaded(n)
  {
    var nfiles, index := ReadIndex(file, fs, rs);
    names := ReadNames(file, index[3..3 + nfiles], fs, rs);
    var sindex := index[3 + nfiles..];
    SavedReads(fs, rs, sindex);
    loader := new Loader(file, sindex, nfiles, Stored(rs));
    loader.LoadAll();
    forall n | 0 <= n < |rs| ensures loader.cache[n] != null {
      assert loader.Loaded(n) && Stored(rs)[n].Some?;
    }
  }
}
