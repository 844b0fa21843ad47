/** hash.H and VCache.h as they are written: entries and timestamps updated in place, proved
    against the functions of RstCaches. */
module RstCacheClasses {
  import opened Basics
  import opened RstTypes
  import opened Lru
  import opened RstCaches

  // ------------------------------------------------------------ RstzipHash

  class RstzipHash {
    const stamp: array2<nat>
    const way: array2<Way>

    ghost predicate Shape() {
      && stamp.Length0 == ASSOC && stamp.Length1 == TABLE_SIZE
      && way.Length0 == ASSOC && way.Length1 == TABLE_SIZE
    }

    /** The set at one hash value. */
    ghost function At(h: nat): (s: Set4)
      requires Shape() && h < TABLE_SIZE
      reads stamp, way
    {
      ChunkSet([stamp[0, h], stamp[1, h], stamp[2, h], stamp[3, h]], [way[0, h], way[1, h], way[2, h], way[3, h]])
    }

    ghost predicate OthersAt(h: nat, others: seq<Set4>)
      requires Shape() && |others| == TABLE_SIZE
      reads stamp, way
    {
      forall k :: 0 <= k < TABLE_SIZE && k != h ==> At(k) == others[k]
    }

    ghost function All(): (t: seq<Set4>)
      requires Shape()
      reads this, stamp, way
      ensures |t| == TABLE_SIZE && forall k :: 0 <= k < TABLE_SIZE ==> t[k] == At(k)
    {
      seq(TABLE_SIZE, k requires 0 <= k < TABLE_SIZE && Shape() reads stamp, way => At(k))
    }

    constructor ()
      ensures Shape() && fresh(stamp) && fresh(way)
      ensures forall h :: 0 <= h < TABLE_SIZE ==> At(h) == EmptySet()
    {
      stamp := new nat[ASSOC, TABLE_SIZE]((_, _) => 0);
      way := new Way[ASSOC, TABLE_SIZE]((_, _) => Way(0, [], 0, []));
    }

    /** search() with instr_buf == NULL. */
    method Search(pc: u64, n: nat, h: nat) returns (i: int)
      requires Shape() && h < TABLE_SIZE
      ensures i == RstCaches.Search(At(h), pc, n)
    {
      i := 0;
      while i < ASSOC
        invariant 0 <= i <= ASSOC
        invariant RstCaches.Search(At(h), pc, n) == FirstMatch(At(h).ways, pc, n, i)
      {
        assert At(h).ways[i] == way[i, h];
        if way[i, h].pc == pc && |way[i, h].words| >= n {
          return;
        }
        i := i + 1;
      }
      i := -1;
    }

    /** search() with instruction words: a way for this pc whose words differ ends the search. */
    method SearchWords(pc: u64, words: seq<u32>, h: nat) returns (i: int)
      requires Shape() && h < TABLE_SIZE
      ensures i == RstCaches.SearchWords(At(h), pc, words)
    {
      i := 0;
      while i < ASSOC
        invariant 0 <= i <= ASSOC
        invariant RstCaches.SearchWords(At(h), pc, words) == FirstWords(At(h).ways, pc, words, i)
      {
        assert At(h).ways[i] == way[i, h];
        if way[i, h].pc == pc && |way[i, h].words| >= |words| {
          for j := 0 to |words|
            invariant forall k :: 0 <= k < j ==> way[i, h].words[k] == words[k]
          {
            if way[i, h].words[j] != words[j] {
              assert way[i, h].words[..|words|][j] != words[j];
              i := -1;
              return;
            }
          }
          assert way[i, h].words[..|words|] == words;
          return;
        }
        i := i + 1;
      }
      i := -1;
    }

    /** replace(): the first entry with timestamp 0 is promoted to 4; ASSOC means the exit. */
    method Replace(h: nat) returns (v: nat)
      requires Shape() && h < TABLE_SIZE
      modifies stamp
      ensures v == old(Victim(At(h).ts))
      ensures v < ASSOC ==> At(h) == old(At(h)).(ts := old(At(h)).ts[v := ASSOC])
      ensures v == ASSOC ==> At(h) == old(At(h))
      ensures OthersAt(h, old(All()))
    {
      ghost var ts := At(h).ts;
      v := 0;
      while v < ASSOC
        invariant v <= ASSOC && Victim(ts) == FirstZero(ts, v)
      {
        assert ts[v] == stamp[v, h];
        if stamp[v, h] == 0 {
          stamp[v, h] := ASSOC;
          return;
        }
        v := v + 1;
      }
    }

    /** update() without an index: every nonzero timestamp drops by one. */
    method Age(h: nat)
      requires Shape() && h < TABLE_SIZE
      modifies stamp
      ensures At(h).ways == old(At(h)).ways
      ensures forall j :: 0 <= j < ASSOC ==>
        At(h).ts[j] == (var t := old(At(h)).ts[j]; if t > 0 then t - 1 else t)
      ensures OthersAt(h, old(All()))
    {
      for i := 0 to ASSOC
        invariant forall j :: 0 <= j < ASSOC ==>
          stamp[j, h] == (var t := old(stamp[j, h]); if j < i && t > 0 then t - 1 else t)
        invariant forall j, k :: 0 <= j < ASSOC && 0 <= k < TABLE_SIZE && k != h ==> stamp[j, k] == old(stamp[j, k])
      {
        if stamp[i, h] > 0 {
          stamp[i, h] := stamp[i, h] - 1;
        }
      }
    }

    /** write() */
    method Write(pc: u64, words: seq<u32>, eas: seq<u64>, h: nat)
      requires Shape() && h < TABLE_SIZE && Victim(At(h).ts) < ASSOC
      modifies stamp, way
      ensures At(h) == SetWrite(old(At(h)), pc, words, eas)
      ensures OthersAt(h, old(All()))
    {
      var v := Replace(h);
      assert At(h).ts[v] == stamp[v, h];
      var buf := CopyEas(way[v, h], eas);
      way[v, h] := Way(pc, words, |eas|, buf);
      if stamp[v, h] != ASSOC - 1 {
        Age(h);
      }
      ghost var want := SetWrite(old(At(h)), pc, words, eas);
      assert forall j :: 0 <= j < ASSOC ==> At(h).ts[j] == want.ts[j];
      assert At(h).ways == want.ways;
    }

    /** The ways above rank `prev` drop by one. */
    method AgeAbove(h: nat, prev: nat)
      requires Shape() && h < TABLE_SIZE
      modifies stamp
      ensures forall k :: 0 <= k < ASSOC ==> stamp[k, h] == (var t := old(stamp[k, h]); if t > prev then t - 1 else t)
      ensures forall k, g :: 0 <= k < ASSOC && 0 <= g < TABLE_SIZE && g != h ==> stamp[k, g] == old(stamp[k, g])
    {
      for j := 0 to ASSOC
        modifies stamp
        invariant forall k :: 0 <= k < ASSOC ==>
          stamp[k, h] == (var t := old(stamp[k, h]); if k < j && t > prev then t - 1 else t)
        invariant forall k, g :: 0 <= k < ASSOC && 0 <= g < TABLE_SIZE && g != h ==> stamp[k, g] == old(stamp[k, g])
      {
        if stamp[j, h] > prev {
          stamp[j, h] := stamp[j, h] - 1;
        }
      }
    }

    /** update() with an index */
    method Update(eas: seq<u64>, h: nat, i: nat)
      requires Shape() && h < TABLE_SIZE && i < ASSOC
      modifies stamp, way
      ensures At(h) == SetUpdate(old(At(h)), i, eas)
      ensures OthersAt(h, old(All()))
    {
      AgeAbove(h, stamp[i, h]);
      stamp[i, h] := ASSOC - 1;
      way[i, h] := way[i, h].(eaBuf := Overlay(eas, way[i, h].eaBuf));
      assert At(h).ts == SetUpdate(old(At(h)), i, eas).ts;
      assert At(h).ways == SetUpdate(old(At(h)), i, eas).ways;
    }
  }

  // ------------------------------------------------------------ RstzipPavadiffCache

  class PavadiffCache {
    const stamp: array<nat>
    const entry: array<PEntry>

    ghost predicate Shape() {
      stamp.Length == PAVA_SIZE && entry.Length == PAVA_SIZE
    }

    ghost function State(): (p: Pava8)
      requires Shape()
      reads stamp, entry
    {
      PavaSet(stamp[..], entry[..])
    }

    constructor ()
      ensures Shape() && fresh(stamp) && fresh(entry) && State() == EmptyPava()
    {
      stamp := new nat[PAVA_SIZE](_ => 0);
      entry := new PEntry[PAVA_SIZE](_ => Vacant);
      new;
      assert stamp[..] == EmptyPava().ts;
      assert entry[..] == EmptyPava().entries;
    }

    method Search(r: Rec) returns (i: int)
      requires Shape() && r.Pavadiff?
      ensures i == PavaSearch(State().entries, r, 0)
    {
      i := 0;
      while i < PAVA_SIZE
        invariant 0 <= i <= PAVA_SIZE
        invariant PavaSearch(State().entries, r, 0) == PavaSearch(State().entries, r, i)
      {
        if PavaMatches(entry[i], r) {
          return;
        }
        i := i + 1;
      }
      i := -1;
    }

    method Replace() returns (v: nat)
      requires Shape()
      modifies stamp
      ensures v == Victim(old(stamp[..]))
      ensures v < PAVA_SIZE ==> stamp[..] == old(stamp[..])[v := PAVA_SIZE]
      ensures v == PAVA_SIZE ==> stamp[..] == old(stamp[..])
    {
      ghost var ts := stamp[..];
      v := 0;
      while v < PAVA_SIZE
        invariant v <= PAVA_SIZE && Victim(ts) == FirstZero(ts, v)
      {
        if stamp[v] == 0 {
          stamp[v] := PAVA_SIZE;
          return;
        }
        v := v + 1;
      }
    }

    /** update(): entries ranked above `prev` move down. */
    method Drop(prev: nat)
      requires Shape()
      modifies stamp
      ensures forall j :: 0 <= j < PAVA_SIZE ==>
        stamp[j] == (var t := old(stamp[j]); if t > prev then t - 1 else t)
    {
      for i := 0 to PAVA_SIZE
        invariant forall j :: 0 <= j < PAVA_SIZE ==>
          stamp[j] == (var t := old(stamp[j]); if j < i && t > prev then t - 1 else t)
      {
        if stamp[i] > prev {
          stamp[i] := stamp[i] - 1;
        }
      }
    }

    method Write(r: Rec)
      requires Shape() && Victim(stamp[..]) < PAVA_SIZE
      modifies stamp, entry
      ensures State() == PavaWrite(old(State()), r)
    {
      var v := Replace();
      entry[v] := Held(r);
      if stamp[v] != PAVA_SIZE - 1 {
        Drop(0);
      }
      assert stamp[..] == PavaWrite(old(State()), r).ts;
    }

    method Update(i: nat)
      requires Shape() && i < PAVA_SIZE
      modifies stamp
      ensures State() == PavaTouch(old(State()), i)
    {
      Drop(stamp[i]);
      stamp[i] := PAVA_SIZE - 1;
      assert stamp[..] == PavaTouch(old(State()), i).ts;
    }
  }

  // ------------------------------------------------------------ VCache

  class VCache {
    const valid: array<bool>
    const value: array<u64>
    var evictions: nat

    ghost predicate Shape() {
      valid.Length == VC_SIZE && value.Length == VC_SIZE
    }

    ghost function State(): (m: Values)
      requires Shape()
      reads valid, value
    {
      map i: nat | i < VC_SIZE && valid[i] :: value[i]
    }

    constructor ()
      ensures Shape() && fresh(valid) && fresh(value) && State() == map[]
    {
      valid := new bool[VC_SIZE](_ => false);
      value := new u64[VC_SIZE](_ => 0);
      evictions := 0;
    }

    method Hit(d: u64) returns (hit: bool, idx: u16)
      requires Shape()
      ensures idx == VcIndex(d) && hit == VcHit(State(), d)
    {
      idx := d % VC_SIZE;
      hit := valid[idx] && value[idx] == d;
    }

    method Insert(d: u64) returns (idx: u16)
      requires Shape()
      modifies this`evictions, valid, value
      ensures idx == VcIndex(d) && State() == VcInsert(old(State()), d)
      ensures evictions == old(evictions) + (if idx in old(State()) then 1 else 0)
    {
      idx := d % VC_SIZE;
      if valid[idx] {
        evictions := evictions + 1;
      }
      value[idx] := d;
      valid[idx] := true;
    }

    /** operator[] with the caller's handling of an invalid index. */
    method Get(idx: u16) returns (v: u64)
      requires Shape() && idx < VC_SIZE
      ensures v == VcGet(State(), idx)
    {
      v := if valid[idx] then value[idx] else 0;
    }
  }
}
