/** The symbol graph of the cross-referencer, as definition and reference events build it. */
module XrefStore {
  import opened Basics
  import opened XrefFile

  datatype Flags = Flags(definition: bool, forward: bool, hidden: bool, str: bool)

  const NoFlags := Flags(false, false, false, false)
  const HiddenOrString := Flags(false, false, true, true)
  const StringOnly := Flags(false, false, false, true)

  /** `flags & mask` is nonzero. */
  predicate Overlaps(f: Flags, mask: Flags) {
    (f.definition && mask.definition) || (f.forward && mask.forward) || (f.hidden && mask.hidden) || (f.str && mask.str)
  }

  class SourceFile {
    const name: Name
    var id: nat

    constructor (name: Name)
      ensures this.name == name
    {
      this.name := name;
    }
  }

  /**
   * A symbol entry. Its two reference buffers appear as the sequences of their contents; that a buffer appends
   * whether or not it has to grow is proved apart, for `RefBuffer`.
   */
  class Sym {
    const name: Name
    const file: SourceFile
    const line: u32
    var flags: Flags
    var id: nat
    var calls: seq<Sym>
    var calledBy: seq<Sym>

    constructor (name: Name, file: SourceFile, line: u32)
      ensures this.name == name && this.file == file && this.line == line
      ensures flags == NoFlags && calls == [] && calledBy == []
    {
      this.name := name;
      this.file := file;
      this.line := line;
      flags := NoFlags;
      calls := [];
      calledBy := [];
    }
  }

  /** `ref_t`: a buffer that grows by twenty slots at a time, starting from any size. */
  class RefBuffer {
    var ptr: array<Sym?>
    var insert: nat

    ghost predicate Valid()
      reads this, ptr
    {
      insert <= ptr.Length && forall i :: 0 <= i < insert ==> ptr[i] != null
    }

    ghost function Contents(): (s: seq<Sym?>)
      reads this, ptr
      requires Valid()
    {
      ptr[..insert]
    }

    constructor (size: nat)
      ensures Valid() && Contents() == [] && fresh(ptr) && ptr.Length == size
    {
      ptr := new Sym?[size](_ => null);
      insert := 0;
    }

    /** `xref_add_reference_to_buffer` appends, whether or not the buffer is full. */
    method Add(fn: Sym)
      requires Valid()
      modifies this, ptr
      ensures Valid() && Contents() == old(Contents()) + [fn]
      ensures ptr == old(ptr) || fresh(ptr)
      ensures ptr.Length == if old(insert < ptr.Length) then old(ptr.Length) else old(ptr.Length) + 20
    {
      if insert >= ptr.Length {
        var newbuf := new Sym?[ptr.Length + 20](_ => null);
        var i := 0;
        while i < ptr.Length
          invariant 0 <= i <= ptr.Length
          invariant forall j :: 0 <= j < i ==> newbuf[j] == ptr[j]
          modifies newbuf
        {
          newbuf[i] := ptr[i];
          i := i + 1;
        }
        ptr := newbuf;
      }
      ptr[insert] := fn;
      insert := insert + 1;
    }
  }

  // ---------- buckets and lookup ----------

  /** The bucket of a name: its first character, or zero for the empty name. */
  function First(n: Name): nat { if n == [] then 0 else n[0] }

  /** Names the 128-entry root table can hold. */
  predicate Ascii(n: Name) { First(n) < 128 }

  /** The chain of bucket `b` once the symbols of `h` have been added in order: newest first. */
  ghost function Bucket(h: seq<Sym>, b: nat): seq<Sym> {
    if h == [] then [] else
      var last := h[|h| - 1];
      if First(last.name) == b then [last] + Bucket(h[..|h| - 1], b) else Bucket(h[..|h| - 1], b)
  }

  predicate Matches(s: Sym, name: Name, ignore: Flags)
    reads s
  {
    s.name == name && !Overlaps(s.flags, ignore)
  }

  /** References and definitions see the entries that are neither hidden nor words of strings; hiding and revealing see
      the hidden ones as well. */
  lemma WhatIsSeen(s: Sym, name: Name)
    ensures Matches(s, name, HiddenOrString) <==> s.name == name && !s.flags.hidden && !s.flags.str
    ensures Matches(s, name, StringOnly) <==> s.name == name && !s.flags.str
  {
  }

  /** `r` is the most recently added entry of that name without an ignored flag, or null when there is none. */
  ghost predicate MostRecent(h: seq<Sym>, name: Name, ignore: Flags, r: Sym?)
    reads set i | 0 <= i < |h| :: h[i]
  {
    if h == [] then r == null else
      var last := h[|h| - 1];
      if Matches(last, name, ignore) then r == last else MostRecent(h[..|h| - 1], name, ignore, r)
  }

  lemma {:induction false} MostRecentUnique(h: seq<Sym>, name: Name, ignore: Flags, r: Sym?, t: Sym?)
    requires MostRecent(h, name, ignore, r)
    ensures MostRecent(h, name, ignore, t) <==> r == t
  {
    if h != [] && !Matches(h[|h| - 1], name, ignore) {
      MostRecentUnique(h[..|h| - 1], name, ignore, r, t);
    }
  }

  /** The first match along the bucket's chain is the most recent match of all. */
  lemma {:induction false} FirstInBucket(h: seq<Sym>, name: Name, ignore: Flags, i: nat)
    requires i <= |Bucket(h, First(name))|
    requires forall j :: 0 <= j < i ==> !Matches(Bucket(h, First(name))[j], name, ignore)
    requires i < |Bucket(h, First(name))| ==> Matches(Bucket(h, First(name))[i], name, ignore)
    ensures var b := Bucket(h, First(name)); MostRecent(h, name, ignore, if i < |b| then b[i] else null)
  {
    if h != [] {
      var last, front := h[|h| - 1], h[..|h| - 1];
      var b, b0 := Bucket(h, First(name)), Bucket(front, First(name));
      if First(last.name) != First(name) {
        FirstInBucket(front, name, ignore, i);
      } else if i > 0 {
        assert !Matches(b[0], name, ignore);
        forall j | 0 <= j < i - 1 ensures !Matches(b0[j], name, ignore) { assert b0[j] == b[j + 1]; }
        FirstInBucket(front, name, ignore, i - 1);
      }
    }
  }

  // ---------- the state and its invariants ----------

  ghost predicate Within(s: seq<Sym>, syms: set<Sym>) {
    forall i :: 0 <= i < |s| ==> s[i] in syms
  }

  /** Every link stays inside `syms`. */
  ghost predicate Closed(syms: set<Sym>)
    reads syms
  {
    forall f :: f in syms ==> Within(f.calls, syms) && Within(f.calledBy, syms)
  }

  /** `f` refers to `g` exactly as often as `g` is referred to by `f`. */
  ghost predicate Converse(syms: set<Sym>)
    reads syms
  {
    forall f, g {:trigger Count(f.calls, g)} {:trigger Count(g.calledBy, f)} :: f in syms && g in syms ==>
      Count(f.calls, g) == Count(g.calledBy, f)
  }

  /** How often `x` occurs. */
  ghost function Count(s: seq<Sym>, x: Sym): nat {
    if s == [] then 0 else Count(s[..|s| - 1], x) + (if s[|s| - 1] == x then 1 else 0)
  }

  lemma CountAppend(s: seq<Sym>, x: Sym, y: Sym)
    ensures Count(s + [x], y) == Count(s, y) + (if x == y then 1 else 0)
  {
    assert (s + [x])[..|s|] == s;
  }

  /** One link more from `fn` to `target` is counted alike at both ends. */
  lemma LinkCounts(fn: Sym, target: Sym, f: Sym, g: Sym, c: seq<Sym>, c': seq<Sym>, b: seq<Sym>, b': seq<Sym>)
    requires Count(c, g) == Count(b, f)
    requires c' == if f == fn then c + [target] else c
    requires b' == if g == target then b + [fn] else b
    ensures Count(c', g) == Count(b', f)
  {
    CountAppend(c, target, g);
    CountAppend(b, fn, f);
  }

  /** The count is the multiplicity of the symbol in the list, however the list is ordered. */
  lemma {:induction false} CountIsMultiplicity(s: seq<Sym>, x: Sym)
    ensures Count(s, x) == multiset(s)[x]
  {
    if s != [] {
      CountIsMultiplicity(s[..|s| - 1], x);
      assert s == s[..|s| - 1] + [s[|s| - 1]];
    }
  }

  /** The root table: every bucket chains its symbols, newest first. */
  ghost predicate Indexed(allRefs: seq<seq<Sym>>, h: seq<Sym>) {
    |allRefs| == 128 && forall b :: 0 <= b < 128 ==> allRefs[b] == Bucket(h, b)
  }

  /** The symbols of a history. */
  ghost function Elems(h: seq<Sym>): set<Sym> {
    if h == [] then {} else Elems(h[..|h| - 1]) + {h[|h| - 1]}
  }

  lemma {:induction false} ElemsIn(h: seq<Sym>)
    ensures forall s :: s in Elems(h) <==> s in h
  {
    if h != [] {
      ElemsIn(h[..|h| - 1]);
      assert h == h[..|h| - 1] + [h[|h| - 1]];
    }
  }

  lemma ElemsAdd(h: seq<Sym>, s: Sym)
    ensures Elems(h + [s]) == Elems(h) + {s}
  {
    assert (h + [s])[..|h|] == h;
  }

  ghost predicate Distinct(h: seq<Sym>) {
    forall i, j :: 0 <= i < j < |h| ==> h[i] != h[j]
  }

  lemma IndexedAdd(allRefs: seq<seq<Sym>>, h: seq<Sym>, s: Sym)
    requires Indexed(allRefs, h) && Ascii(s.name)
    ensures Indexed(allRefs[First(s.name) := [s] + allRefs[First(s.name)]], h + [s])
  {
    assert (h + [s])[..|h|] == h;
  }

  ghost predicate DistinctFiles(fs: seq<SourceFile>) {
    forall i, j :: 0 <= i < j < |fs| ==> fs[i] != fs[j]
  }

  lemma DistinctAdd(h: seq<Sym>, s: Sym)
    requires Distinct(h) && s !in Elems(h)
    ensures Distinct(h + [s])
  {
    ElemsIn(h);
  }

  class Xref {
    const fwd: bool
    var sources: seq<SourceFile>
    /** `current_file` and its chain of `prev_file` links, innermost last. */
    var fileStack: seq<SourceFile>
    var allRefs: seq<seq<Sym>>
    var currentDef: Sym?
    /** Every entry ever added, in order. */
    ghost var history: seq<Sym>
    ghost var syms: set<Sym>

    ghost predicate Valid()
      reads this, syms
    {
      && Indexed(allRefs, history)
      && Distinct(history) && syms == Elems(history)
      && (forall s :: s in syms ==> Ascii(s.name) && s.file in sources)
      && DistinctFiles(sources) && (forall f :: f in fileStack ==> f in sources)
      && (currentDef != null ==> currentDef in syms)
      && Closed(syms) && Converse(syms)
    }

    /** Only links and the table matter: flags, ids and the current definition may change. */
    twostate lemma LinksKeepValid()
      requires old(Valid()) && unchanged(`sources, `fileStack, `allRefs, `history, `syms)
      requires currentDef != null ==> currentDef in syms
      requires forall s :: s in old(syms) ==> s.calls == old(s.calls) && s.calledBy == old(s.calledBy)
      ensures Valid()
    {
      assert Closed(syms);
      forall f, g | f in syms && g in syms ensures Count(f.calls, g) == Count(g.calledBy, f) {
        assert old(Count(f.calls, g) == Count(g.calledBy, f));
      }
    }

    /** `xref_init` without a preloaded database. */
    constructor (fwd: bool, defaultName: Name)
      ensures Valid() && this.fwd == fwd
      ensures history == [] && currentDef == null && |fileStack| == 1 && sources == fileStack
      ensures fileStack[0].name == defaultName
    {
      this.fwd := fwd;
      var f := new SourceFile(defaultName);
      sources := [f];
      fileStack := [f];
      allRefs := seq(128, _ => []);
      currentDef := null;
      history := [];
      syms := {};
    }

    method AddFileReference(name: Name)
      requires Valid()
      modifies this
      ensures Valid() && history == old(history) && currentDef == old(currentDef)
      ensures |fileStack| == old(|fileStack|) + 1 && fileStack[..old(|fileStack|)] == old(fileStack)
      ensures sources == [fileStack[old(|fileStack|)]] + old(sources) && fresh(fileStack[old(|fileStack|)])
      ensures fileStack[old(|fileStack|)].name == name
    {
      var f := new SourceFile(name);
      sources := [f] + sources;
      fileStack := fileStack + [f];
    }

    method RemoveFileReference()
      requires Valid() && fileStack != []
      modifies this
      ensures Valid() && history == old(history) && currentDef == old(currentDef) && sources == old(sources)
      ensures fileStack == old(fileStack[..|fileStack| - 1])
    {
      fileStack := fileStack[..|fileStack| - 1];
    }

    /** `xref_find_symbol` over the root table; `prev` is the last entry it passed over. */
    method FindSymbol(name: Name, ignore: Flags) returns (found: Sym?, prev: Sym?)
      requires Valid() && Ascii(name)
      ensures MostRecent(history, name, ignore, found)
      ensures found != null ==> found in syms && found.name == name && !Overlaps(found.flags, ignore)
      ensures prev != null ==> prev in syms && First(prev.name) == First(name) && !Matches(prev, name, ignore)
    {
      var chain := allRefs[First(name)];
      BucketMembers(history, First(name));
      ElemsIn(history);
      found, prev := null, null;
      var i := 0;
      while i < |chain|
        invariant 0 <= i <= |chain|
        invariant found == null
        invariant forall j :: 0 <= j < i ==> !Matches(chain[j], name, ignore)
        invariant prev != null ==> prev in chain && !Matches(prev, name, ignore)
      {
        if Matches(chain[i], name, ignore) {
          found := chain[i];
          break;
        }
        prev := chain[i];
        i := i + 1;
      }
      FirstInBucket(history, name, ignore, i);
    }

    /** A new entry at the head of its bucket, with no links. */
    method CreateReference(name: Name, line: u32) returns (s: Sym)
      requires Valid() && Ascii(name) && fileStack != []
      modifies this`allRefs, this`history, this`syms
      ensures Valid() && fresh(s) && history == old(history) + [s] && syms == old(syms) + {s}
      ensures Fresh(s, name, line, fileStack[|fileStack| - 1], NoFlags)
    {
      s := new Sym(name, fileStack[|fileStack| - 1], line);
      assert s !in syms;
      Chain(s);
    }

    /** Puts a symbol without links at the head of its bucket. */
    method Chain(s: Sym)
      requires Valid() && Ascii(s.name) && s.file in sources && s !in syms && s.calls == [] && s.calledBy == []
      modifies this`allRefs, this`history, this`syms
      ensures Valid() && history == old(history) + [s] && syms == old(syms) + {s}
    {
      IndexedAdd(allRefs, history, s);
      DistinctAdd(history, s);
      ElemsAdd(history, s);
      NewSymbolKeeps(syms, s);
      allRefs := allRefs[First(s.name) := [s] + allRefs[First(s.name)]];
      history := history + [s];
      syms := syms + {s};
    }

    /** Both ends of a reference, in place; they may be the same symbol. */
    method Link(fn: Sym, target: Sym)
      requires Valid() && fn in syms && target in syms
      modifies fn`calls, target`calledBy
      ensures Valid()
      ensures fn.calls == old(fn.calls) + [target] && target.calledBy == old(target.calledBy) + [fn]
    {
      fn.calls := fn.calls + [target];
      target.calledBy := target.calledBy + [fn];
      forall f | f in syms ensures Within(f.calls, syms) && Within(f.calledBy, syms) {
        assert old(Within(f.calls, syms) && Within(f.calledBy, syms));
      }
      forall f, g | f in syms && g in syms ensures Count(f.calls, g) == Count(g.calledBy, f) {
        assert old(Count(f.calls, g)) == old(Count(g.calledBy, f));
        LinkCounts(fn, target, f, g, old(f.calls), f.calls, old(g.calledBy), g.calledBy);
      }
    }

    /** Creation followed by setting the flags. */
    method CreateFlagged(name: Name, line: u32, flags: Flags) returns (s: Sym)
      requires Valid() && Ascii(name) && fileStack != []
      modifies this`allRefs, this`history, this`syms
      ensures Valid() && fresh(s) && history == old(history) + [s] && syms == old(syms) + {s}
      ensures Fresh(s, name, line, fileStack[|fileStack| - 1], flags)
    {
      s := CreateReference(name, line);
      label Created:
      s.flags := flags;
      LinksKeepValid@Created();
    }

    /** The symbol a reference names: the visible one, else a forward entry where those are enabled. */
    method Resolve(name: Name, line: u32) returns (target: Sym?)
      requires Valid() && Ascii(name) && fileStack != []
      modifies this`allRefs, this`history, this`syms
      ensures Valid() && (target != null ==> target in syms)
      ensures target == null || target in old(syms) ==> history == old(history) && syms == old(syms)
      ensures target == null || target in old(syms) ==> old(MostRecent(history, name, HiddenOrString, target))
      ensures target == null <==> !fwd && old(MostRecent(history, name, HiddenOrString, null))
      ensures target != null && target !in old(syms) ==> (
        && fwd && fresh(target) && history == old(history) + [target] && syms == old(syms) + {target}
        && old(MostRecent(history, name, HiddenOrString, null))
        && Fresh(target, name, line, fileStack[|fileStack| - 1], Flags(true, true, false, false)))
    {
      var prev;
      target, prev := FindSymbol(name, HiddenOrString);
      MostRecentUnique(history, name, HiddenOrString, target, null);
      if target == null && fwd {
        target := CreateFlagged(name, line, Flags(true, true, false, false));
      }
    }

    /** A reference from the current definition. `target` is what it was resolved to, null when the event is dropped. */
    method AddSymbolReference(name: Name, line: u32) returns (target: Sym?)
      requires Valid() && Ascii(name) && fileStack != []
      modifies this`allRefs, this`history, this`syms, syms
      ensures Valid()
      ensures history == old(history) + if target != null && target !in old(syms) then [target] else []
      // which symbol it resolves to
      ensures target == null <==>
        old(currentDef) == null || (!fwd && old(MostRecent(history, name, HiddenOrString, null)))
      ensures target != null && target in old(syms) ==> old(MostRecent(history, name, HiddenOrString, target))
      ensures target != null && target !in old(syms) ==> old(MostRecent(history, name, HiddenOrString, null))
      ensures target != null && target !in old(syms) ==>
        && fwd && target.name == name && target.line == line && target.file == fileStack[|fileStack| - 1]
        && target.flags == Flags(true, true, false, false)
        && target.calls == []
      // what it changes
      ensures target != null ==> currentDef.calls == old(currentDef.calls) + [target]
      ensures target != null ==>
        target.calledBy == (if target in old(syms) then old(target.calledBy) else []) + [currentDef]
      ensures forall s :: s in old(syms) ==> s.flags == old(s.flags)
      ensures forall s :: s in old(syms) && !(target != null && s == currentDef) ==> s.calls == old(s.calls)
      ensures forall s :: s in old(syms) && s != target ==> s.calledBy == old(s.calledBy)
    {
      target := null;
      if currentDef == null { return; }
      target := Resolve(name, line);
      if target == null { return; }
      Link(currentDef, target);
    }

    /** A definition. A repeat of the visible entry, same line and same file, is ignored and does not become current. */
    method AddSymbolDefinition(name: Name, line: u32) returns (repeated: Sym?)
      requires Valid() && Ascii(name) && fileStack != []
      modifies this`allRefs, this`history, this`syms, this`currentDef
      ensures Valid()
      ensures repeated == null ==> (
        && currentDef != null && fresh(currentDef) && history == old(history) + [currentDef]
        && Fresh(currentDef, name, line, fileStack[|fileStack| - 1], Flags(true, false, false, false)))
      ensures repeated != null ==> (
        && history == old(history) && currentDef == old(currentDef) && repeated in syms
        && MostRecent(history, name, HiddenOrString, repeated)
        && repeated.line == line && repeated.file == fileStack[|fileStack| - 1])
      // a definition is entered only when the visible entry of its name, if any, is on another line or in another file
      ensures repeated == null ==> forall r: Sym? | r == null || r in old(syms) ::
        old(MostRecent(history, name, HiddenOrString, r)) ==>
          r == null || r.line != line || r.file != fileStack[|fileStack| - 1]
    {
      var s, prev := FindSymbol(name, HiddenOrString);
      forall r: Sym? | (r == null || r in syms) && old(MostRecent(history, name, HiddenOrString, r)) ensures r == s {
        MostRecentUnique(history, name, HiddenOrString, s, r);
      }
      if s != null && s.line == line && s.file == fileStack[|fileStack| - 1] { return s; }
      repeated := null;
      Define(name, line);
    }

    method Define(name: Name, line: u32)
      requires Valid() && Ascii(name) && fileStack != []
      modifies this`allRefs, this`history, this`syms, this`currentDef
      ensures Valid() && currentDef != null && fresh(currentDef) && history == old(history) + [currentDef]
      ensures Fresh(currentDef, name, line, fileStack[|fileStack| - 1], Flags(true, false, false, false))
    {
      var def := CreateFlagged(name, line, Flags(true, false, false, false));
      label Created:
      currentDef := def;
      LinksKeepValid@Created();
    }

    /** Hide or reveal: the newest entry of the name that is not a string word, whether hidden or not. */
    method ModifySymbolDefinition(name: Name, show: bool) returns (s: Sym?)
      requires Valid() && Ascii(name)
      modifies syms
      ensures Valid() && (s != null ==> s in syms) && old(MostRecent(history, name, StringOnly, s))
      ensures s != null ==> s.flags == old(s.flags).(hidden := !show)
      ensures forall t :: t in syms && t != s ==> t.flags == old(t.flags)
      ensures forall t :: t in syms ==> t.calls == old(t.calls) && t.calledBy == old(t.calledBy)
    {
      var prev;
      s, prev := FindSymbol(name, StringOnly);
      if s != null {
        s.flags := s.flags.(hidden := !show);
      }
      LinksKeepValid();
    }

    /** One word of a string constant: an entry of its own, with no links. */
    method AddStringWord(word: Name, line: u32) returns (s: Sym)
      requires Valid() && Ascii(word) && fileStack != []
      modifies this`allRefs, this`history, this`syms
      ensures Valid() && fresh(s) && history == old(history) + [s]
      ensures Fresh(s, word, line, fileStack[|fileStack| - 1], StringOnly)
    {
      s := CreateFlagged(word, line, StringOnly);
    }
  }

  /** A new entry: no links yet. */
  ghost predicate Fresh(s: Sym, name: Name, line: u32, file: SourceFile, flags: Flags)
    reads s
  {
    && s.name == name && s.line == line && s.file == file && s.flags == flags
    && s.calls == [] && s.calledBy == []
  }

  lemma {:induction false} BucketMembers(h: seq<Sym>, b: nat)
    ensures forall s :: s in Bucket(h, b) ==> s in h && First(s.name) == b
  {
    if h != [] { BucketMembers(h[..|h| - 1], b); }
  }

  lemma NewSymbolKeeps(syms: set<Sym>, s: Sym)
    requires Closed(syms) && Converse(syms) && s !in syms && s.calls == [] && s.calledBy == []
    ensures Closed(syms + {s}) && Converse(syms + {s})
  {
    forall f | f in syms ensures Count(f.calls, s) == 0 && Count(f.calledBy, s) == 0 {
      NotCounted(f.calls, syms, s);
      NotCounted(f.calledBy, syms, s);
    }
  }

  lemma {:induction false} NotCounted(l: seq<Sym>, syms: set<Sym>, s: Sym)
    requires Within(l, syms) && s !in syms
    ensures Count(l, s) == 0
  {
    if l != [] { NotCounted(l[..|l| - 1], syms, s); }
  }
}
