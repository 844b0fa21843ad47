/** The compressor's open-addressing hash table: double hashing terminates because 18013 is
    prime, every hit is sound, and every miss is genuine except for the pair with key 0. */
module LzwHash {
  import opened Basics
  import opened Bits
  import opened LzwFormat

  // ------------------------------------------------------------ 18013 is prime

  lemma {:induction false} SmallNoDivisor(k: nat)
    requires 2 <= k < 135
    ensures HSIZE % k != 0
  {
  }

  lemma {:induction false} NoDivisor(k: nat)
    requires 2 <= k < HSIZE
    ensures HSIZE % k != 0
  {
    if k < 135 {
      SmallNoDivisor(k);
    } else if HSIZE % k == 0 {
      var m := HSIZE / k;
      assert m * k == HSIZE;
      if m >= 135 {
        MulMono(135, m, k);
      }
      assert m >= 2 by {
        if m <= 1 { MulMono(m, 1, k); }
      }
      SmallNoDivisor(m);
      DivModUnique(HSIZE, m, k, 0);
    }
  }

  /** No multiple of a nonzero step below 18013 returns to the start early: Euclid's
      algorithm on the number of steps. */
  lemma {:induction false} NoCycle(d: nat, k: nat)
    requires 0 < d < HSIZE && 0 < k < HSIZE
    ensures (k * d) % HSIZE != 0
    decreases k
  {
    assert 1 * d == d;
    if (k * d) % HSIZE == 0 {
      if k > 1 {
        NoDivisor(k);
        var q, r := HSIZE / k, HSIZE % k;
        NoCycle(d, r);
        RemainderCycles(d, k, q, r);
      }
    }
  }

  lemma {:induction false} RemainderCycles(d: nat, k: nat, q: nat, r: nat)
    requires HSIZE == q * k + r && (k * d) % HSIZE == 0
    ensures (r * d) % HSIZE == 0
  {
    var t := (k * d) / HSIZE;
    assert k * d == t * HSIZE;
    calc {
      r * d;
      (HSIZE - q * k) * d;
      HSIZE * d - (q * k) * d;
      { MulSwap(q, k, d); }
      HSIZE * d - q * (t * HSIZE);
      { MulSwap(q, t, HSIZE); }
      HSIZE * d - (q * t) * HSIZE;
      (d - q * t) * HSIZE;
    }
    DivModUnique(r * d, HSIZE, d - q * t, 0);
  }

  lemma {:induction false} MulSwap(a: int, b: int, c: int)
    ensures (a * b) * c == a * (b * c)
  {
  }

  // ------------------------------------------------------------ the probe sequence

  /** Exclusive or. */
  function Xor(a: nat, b: nat): nat
    decreases a + b
  {
    if a == 0 && b == 0 then 0 else (a % 2 + b % 2) % 2 + 2 * Xor(a / 2, b / 2)
  }

  lemma {:induction false} XorBound(a: nat, b: nat, w: nat)
    requires a < Pow2(w) && b < Pow2(w)
    ensures Xor(a, b) < Pow2(w)
    decreases w
  {
    if w > 0 { XorBound(a / 2, b / 2, w - 1); }
  }

  /** i = (c << hshift) ^ ent, with hshift = 6 for this table size. */
  function FirstProbe(ent: Code, c: byte): (i: nat)
    ensures i < MAX_CODE
  {
    Pow2Values();
    XorBound(c * 64, ent, MAX_BITS);
    Xor(c * 64, ent)
  }

  function Disp(i: nat): nat
    requires i < HSIZE
  {
    if i == 0 then 1 else HSIZE - i
  }

  /** "i -= disp, and add hsize if negative" */
  function NextProbe(i: nat, disp: nat): (j: nat)
    requires i < HSIZE && disp <= HSIZE
    ensures j < HSIZE || disp == 0
  {
    if i < disp then i + HSIZE - disp else i - disp
  }

  /** The slot of the `n`-th probe. */
  function Slot(ent: Code, c: byte, n: nat): (s: nat)
    ensures s < HSIZE
    decreases n
  {
    if n == 0 then FirstProbe(ent, c)
    else NextProbe(Slot(ent, c, n - 1), Disp(FirstProbe(ent, c)))
  }

  lemma {:induction false} SlotClosed(ent: Code, c: byte, n: nat)
    ensures Slot(ent, c, n) == (FirstProbe(ent, c) - n * Disp(FirstProbe(ent, c))) % HSIZE
    decreases n
  {
    var f, d := FirstProbe(ent, c), Disp(FirstProbe(ent, c));
    if n == 0 {
      assert 0 * d == 0;
    } else {
      SlotClosed(ent, c, n - 1);
      NextMultiple(f, d, n - 1, n);
    }
  }

  lemma {:induction false} NextMultiple(f: int, d: nat, m: nat, n: nat)
    requires 0 < d <= HSIZE && n == m + 1
    ensures NextProbe((f - m * d) % HSIZE, d) == (f - n * d) % HSIZE
  {
    var v := f - m * d;
    assert n * d == m * d + d;
    NextProbeMod(v, d);
  }

  lemma {:induction false} NextProbeMod(v: int, d: nat)
    requires 0 < d <= HSIZE
    ensures NextProbe(v % HSIZE, d) == (v - d) % HSIZE
  {
    var q, i := v / HSIZE, v % HSIZE;
    if i < d {
      DivModUnique(v - d, HSIZE, q - 1, i - d + HSIZE);
    } else {
      DivModUnique(v - d, HSIZE, q, i - d);
    }
  }

  /** The first 18013 probes visit different slots. */
  lemma {:induction false} SlotsDistinct(ent: Code, c: byte, m: nat, n: nat)
    requires m < n < HSIZE
    ensures Slot(ent, c, m) != Slot(ent, c, n)
  {
    var f, d := FirstProbe(ent, c), Disp(FirstProbe(ent, c));
    SlotClosed(ent, c, m);
    SlotClosed(ent, c, n);
    if Slot(ent, c, m) == Slot(ent, c, n) {
      var a, b := f - m * d, f - n * d;
      assert a - b == (n - m) * d;
      var k := a / HSIZE - b / HSIZE;
      assert a == (a / HSIZE) * HSIZE + a % HSIZE && b == (b / HSIZE) * HSIZE + b % HSIZE;
      assert (n - m) * d == k * HSIZE;
      DivModUnique((n - m) * d, HSIZE, k, 0);
      NoCycle(d, n - m);
    }
  }

  // ------------------------------------------------------------ the table

  /** Probe `n` does not end the search: the slot holds another key. After the first probe
      the source tests "> 0", so key 0 does not count as occupied there. */
  predicate Blocked(h: seq<int>, ent: Code, c: byte, n: nat)
    requires |h| == HSIZE
  {
    var v := h[Slot(ent, c, n)];
    v != Key(ent, c) && (if n == 0 then v >= 0 else v > 0)
  }

  ghost predicate ProbeHit(h: seq<int>, ent: Code, c: byte, n: nat)
    requires |h| == HSIZE
  {
    h[Slot(ent, c, n)] == Key(ent, c) && forall m :: 0 <= m < n ==> Blocked(h, ent, c, m)
  }

  ghost predicate ProbeMiss(h: seq<int>, ent: Code, c: byte, n: nat)
    requires |h| == HSIZE
  {
    && n < HSIZE
    && h[Slot(ent, c, n)] != Key(ent, c) && !Blocked(h, ent, c, n)
    && forall m :: 0 <= m < n ==> Blocked(h, ent, c, m)
  }

  ghost function Occupied(h: seq<int>): set<int> {
    set s | 0 <= s < |h| && h[s] >= 0
  }

  ghost predicate Sound(h: seq<int>, ct: seq<int>, dict: Dict)
    requires |h| == |ct| == HSIZE
  {
    forall s :: 0 <= s < HSIZE && h[s] >= 0 ==>
      FIRST <= ct[s] < FIRST + |dict|
      && h[s] == Key(dict[ct[s] - FIRST].prefix, dict[ct[s] - FIRST].ch)
  }

  /** Every entry but the one with key 0 is found at its recorded probe depth. */
  ghost predicate Complete(h: seq<int>, dict: Dict, depth: seq<nat>)
    requires |h| == HSIZE && |depth| == |dict|
  {
    forall j {:trigger depth[j]} :: 0 <= j < |dict| && Key(dict[j].prefix, dict[j].ch) != 0 ==>
      ProbeHit(h, dict[j].prefix, dict[j].ch, depth[j])
  }

  ghost predicate HashInv(h: seq<int>, ct: seq<int>, dict: Dict, depth: seq<nat>) {
    && |h| == |ct| == HSIZE && |depth| == |dict|
    && Sound(h, ct, dict)
    && Complete(h, dict, depth)
    && |Occupied(h)| <= |dict|
  }

  lemma {:induction false} KeyInjective(ent: Code, c: byte, ent': Code, c': byte)
    requires Key(ent, c) == Key(ent', c')
    ensures ent == ent' && c == c'
  {
  }

  /** A hit returns the code of exactly the current prefix and the new character. */
  lemma {:induction false} HitSound(h: seq<int>, ct: seq<int>, dict: Dict, depth: seq<nat>, ent: Code, c: byte, n: nat)
    requires HashInv(h, ct, dict, depth) && ProbeHit(h, ent, c, n)
    ensures var code := ct[Slot(ent, c, n)];
            FIRST <= code < FIRST + |dict| && dict[code - FIRST] == Entry(ent, c)
  {
    var x := dict[ct[Slot(ent, c, n)] - FIRST];
    KeyInjective(ent, c, x.prefix, x.ch);
  }

  /** A miss means that the pair has no entry, unless its key is 0. */
  lemma {:induction false} MissGenuine(h: seq<int>, ct: seq<int>, dict: Dict, depth: seq<nat>, ent: Code, c: byte,
                                       n: nat)
    requires HashInv(h, ct, dict, depth) && ProbeMiss(h, ent, c, n) && Key(ent, c) != 0
    ensures Entry(ent, c) !in dict
  {
    if Entry(ent, c) in dict {
      var j :| 0 <= j < |dict| && dict[j] == Entry(ent, c);
      assert ProbeHit(h, ent, c, depth[j]);
      OneAnswer(h, ent, c, depth[j], n);
    }
  }

  lemma {:induction false} OneAnswer(h: seq<int>, ent: Code, c: byte, m: nat, n: nat)
    requires |h| == HSIZE && ProbeHit(h, ent, c, m)
    ensures !ProbeMiss(h, ent, c, n)
  {
    assert !Blocked(h, ent, c, m);
    assert n < m ==> Blocked(h, ent, c, n);
  }

  lemma {:induction false} OccupiedInsert(h: seq<int>, s: nat, key: nat)
    requires s < |h|
    ensures |Occupied(h[s := key])| <= |Occupied(h)| + 1
  {
    assert Occupied(h[s := key]) == Occupied(h) + {s};
  }

  /** Overwriting an unblocked slot keeps every other entry reachable. */
  lemma {:induction false} BlockedStays(h: seq<int>, s: nat, key: nat, old': int, ent: Code, c: byte, n: nat)
    requires |h| == HSIZE && s < HSIZE && h[s] == old' && old' <= 0
    requires (old' == 0 ==> key > 0) && key != Key(ent, c)
    requires Blocked(h, ent, c, n)
    ensures Blocked(h[s := key], ent, c, n)
  {
  }

  lemma {:induction false} InsertComplete(h: seq<int>, dict: Dict, depth: seq<nat>, ent: Code, c: byte, n: nat)
    requires |h| == HSIZE && |depth| == |dict| && Complete(h, dict, depth)
    requires ProbeMiss(h, ent, c, n)
    requires Key(ent, c) != 0 ==> Entry(ent, c) !in dict
    ensures Complete(h[Slot(ent, c, n) := Key(ent, c)], dict + [Entry(ent, c)], depth + [n])
  {
    var s, key := Slot(ent, c, n), Key(ent, c);
    var h', dict', depth' := h[s := key], dict + [Entry(ent, c)], depth + [n];
    forall j | 0 <= j < |dict'| && Key(dict'[j].prefix, dict'[j].ch) != 0
      ensures ProbeHit(h', dict'[j].prefix, dict'[j].ch, depth'[j])
    {
      if j < |dict| {
        var x := dict[j];
        assert ProbeHit(h, x.prefix, x.ch, depth[j]);
        if key == Key(x.prefix, x.ch) {
          KeyInjective(ent, c, x.prefix, x.ch);
          assert false;
        }
        forall m | 0 <= m < depth[j]
          ensures Blocked(h', x.prefix, x.ch, m)
        {
          BlockedStays(h, s, key, h[s], x.prefix, x.ch, m);
        }
      } else {
        forall m: nat | m < n
          ensures Blocked(h', ent, c, m)
        {
          assert Blocked(h, ent, c, m);
          SlotsDistinct(ent, c, m, n);
        }
      }
    }
  }

  lemma {:induction false} InsertKeeps(h: seq<int>, ct: seq<int>, dict: Dict, depth: seq<nat>, ent: Code, c: byte,
                                       n: nat)
    requires HashInv(h, ct, dict, depth) && ProbeMiss(h, ent, c, n)
    ensures HashInv(h[Slot(ent, c, n) := Key(ent, c)], ct[Slot(ent, c, n) := FIRST + |dict|],
                    dict + [Entry(ent, c)], depth + [n])
  {
    if Key(ent, c) != 0 {
      MissGenuine(h, ct, dict, depth, ent, c, n);
    }
    InsertComplete(h, dict, depth, ent, c, n);
    OccupiedInsert(h, Slot(ent, c, n), Key(ent, c));
    var dict' := dict + [Entry(ent, c)];
    assert forall i :: 0 <= i < |dict| ==> dict'[i] == dict[i];
  }

  ghost function FirstSlots(ent: Code, c: byte, n: nat): set<int> {
    if n == 0 then {} else FirstSlots(ent, c, n - 1) + {Slot(ent, c, n - 1)}
  }

  lemma {:induction false} SlotIsNew(ent: Code, c: byte, m: nat, n: nat)
    requires m <= n < HSIZE
    ensures Slot(ent, c, n) !in FirstSlots(ent, c, m)
    decreases m
  {
    if m > 0 {
      SlotIsNew(ent, c, m - 1, n);
      SlotsDistinct(ent, c, m - 1, n);
    }
  }

  /** Blocked probes are different occupied slots, so there are fewer of them than slots. */
  lemma {:induction false} BlockedCount(h: seq<int>, ent: Code, c: byte, n: nat)
    requires |h| == HSIZE && n <= HSIZE
    requires forall m :: 0 <= m < n ==> Blocked(h, ent, c, m)
    ensures |FirstSlots(ent, c, n)| == n && FirstSlots(ent, c, n) <= Occupied(h)
    ensures n <= |Occupied(h)|
    decreases n
  {
    if n > 0 {
      BlockedCount(h, ent, c, n - 1);
      SlotIsNew(ent, c, n - 1, n - 1);
      assert Blocked(h, ent, c, n - 1);
    }
    SubsetSize(FirstSlots(ent, c, n), Occupied(h));
  }

  lemma {:induction false} EmptyTable(h: seq<int>, ct: seq<int>)
    requires |h| == |ct| == HSIZE && forall s :: 0 <= s < HSIZE ==> h[s] == -1
    ensures HashInv(h, ct, [], [])
  {
    assert Occupied(h) == {};
  }

  // ------------------------------------------------------------ the entry that is lost

  /** The table after these entries have been made, each at its probe depth. */
  function Filled(dict: Dict, depth: seq<nat>): (h: seq<int>)
    requires |dict| == |depth|
    ensures |h| == HSIZE
    decreases |dict|
  {
    if dict == [] then seq(HSIZE, _ => -1)
    else
      var n := |dict| - 1;
      Filled(dict[..n], depth[..n])[Slot(dict[n].prefix, dict[n].ch, depth[n]) := Key(dict[n].prefix, dict[n].ch)]
  }

  /** Every entry was made where its own probe had missed. */
  ghost predicate Probed(dict: Dict, depth: seq<nat>)
    requires |dict| == |depth|
    decreases |dict|
  {
    dict == [] ||
    var n := |dict| - 1;
    && Probed(dict[..n], depth[..n])
    && ProbeMiss(Filled(dict[..n], depth[..n]), dict[n].prefix, dict[n].ch, depth[n])
  }

  /** One more entry, at a slot computed beforehand. */
  lemma ProbedMore(dict: Dict, depth: seq<nat>, h: seq<int>, x: Entry, n: nat, slot: nat)
    requires |dict| == |depth| && Probed(dict, depth) && h == Filled(dict, depth)
    requires slot == Slot(x.prefix, x.ch, n) && ProbeMiss(h, x.prefix, x.ch, n)
    ensures Probed(dict + [x], depth + [n])
    ensures Filled(dict + [x], depth + [n]) == h[slot := Key(x.prefix, x.ch)]
  {
    assert (dict + [x])[..|dict|] == dict && (depth + [n])[..|dict|] == depth;
  }

  /** An entry made at the first slot, which was empty. */
  lemma ProbedFirst(dict: Dict, depth: seq<nat>, h: seq<int>, x: Entry, slot: nat)
    requires |dict| == |depth| && Probed(dict, depth) && h == Filled(dict, depth)
    requires slot == FirstProbe(x.prefix, x.ch) && h[slot] == -1
    ensures Probed(dict + [x], depth + [0])
    ensures Filled(dict + [x], depth + [0]) == h[slot := Key(x.prefix, x.ch)]
  {
    ProbedMore(dict, depth, h, x, 0, slot);
  }

  /** An entry made at the second slot. */
  lemma ProbedSecond(dict: Dict, depth: seq<nat>, h: seq<int>, x: Entry, first: nat, slot: nat)
    requires |dict| == |depth| && Probed(dict, depth) && h == Filled(dict, depth)
    requires first == FirstProbe(x.prefix, x.ch) && slot == NextProbe(first, Disp(first))
    requires h[first] >= 0 && h[first] != Key(x.prefix, x.ch)
    requires h[slot] <= 0 && h[slot] != Key(x.prefix, x.ch)
    ensures Probed(dict + [x], depth + [1])
    ensures Filled(dict + [x], depth + [1]) == h[slot := Key(x.prefix, x.ch)]
  {
    assert Slot(x.prefix, x.ch, 0) == first;
    assert Slot(x.prefix, x.ch, 1) == slot;
    ProbedMore(dict, depth, h, x, 1, slot);
  }

  lemma XorDouble(x: nat, y: nat, b: nat, x2: nat, y2: nat)
    requires b < 2 && x2 == 2 * x && y2 == 2 * y + b
    ensures Xor(x2, y2) == 2 * Xor(x, y) + b
  {
    assert x2 / 2 == x && y2 / 2 == y && x2 % 2 == 0 && y2 % 2 == b;
  }

  lemma {:induction false} XorZero(a: nat)
    ensures Xor(a, 0) == a
  {
    if a > 0 { XorZero(a / 2); }
  }

  lemma XorOne(a: nat)
    ensures Xor(a, 1) == if a % 2 == 1 then a - 1 else a + 1
  {
    XorZero(a / 2);
  }

  /** Below a shift by `w` bits the other operand stays as it is. */
  lemma {:induction false} XorShifted(x: nat, y: nat, v: nat, e: nat, w: nat, p: nat, xp: nat, ye: nat)
    requires v == Xor(x, y) && p == Pow2(w) && e < p && xp == x * p && ye == y * p + e
    ensures Xor(xp, ye) == v * p + e
    decreases w
  {
    if w > 0 {
      var h := Pow2(w - 1);
      var xh, yh := x * h, y * h + e / 2;
      Halves(x, h);
      Halves(y, h);
      Halves(v, h);
      XorShifted(x, y, v, e / 2, w - 1, h, xh, yh);
      XorDouble(xh, yh, e % 2, xp, ye);
    }
  }

  lemma Halves(x: nat, h: nat)
    ensures x * (2 * h) == 2 * (x * h)
  {
  }

  /** The low six bits of the prefix are those of the slot. */
  lemma ProbeSplit(ent: Code, c: byte, q: nat, e: nat, v: nat)
    requires ent == q * 64 + e && e < 64 && v == Xor(c, q)
    ensures FirstProbe(ent, c) == v * 64 + e
  {
    Pow2Values();
    XorShifted(c, q, v, e, 6, 64, c * 64, ent);
  }

  lemma LowProbe(x: Entry)
    requires x.prefix < 64
    ensures ProbeOf(x) == x.ch * 64 + x.prefix
  {
    XorZero(x.ch);
    ProbeSplit(x.prefix, x.ch, 0, x.prefix, x.ch);
  }

  lemma MiddleProbe(x: Entry, v: nat)
    requires 64 <= x.prefix < 128 && x.ch % 2 == 1 && v == x.ch - 1
    ensures ProbeOf(x) == v * 64 + x.prefix - 64
  {
    XorOne(x.ch);
    ProbeSplit(x.prefix, x.ch, 1, x.prefix - 64, v);
  }

  lemma HighProbe(x: Entry, half: nat, v: nat)
    requires 128 <= x.prefix < 192 && x.ch == 2 * half && v == 2 * (if half % 2 == 1 then half - 1 else half + 1)
    ensures ProbeOf(x) == v * 64 + x.prefix - 128
  {
    XorOne(half);
    XorDouble(half, 1, 0, x.ch, 2);
    ProbeSplit(x.prefix, x.ch, 2, x.prefix - 128, v);
  }

  function KeyOf(x: Entry): nat { Key(x.prefix, x.ch) }

  function ProbeOf(x: Entry): nat { FirstProbe(x.prefix, x.ch) }

  predicate DistinctKeys(xs: Dict)
    requires |xs| == 8
  {
    KeyOf(xs[2]) == 0 && (forall i :: 0 <= i < |xs| && i != 2 ==> KeyOf(xs[i]) > 0) && KeyOf(xs[4]) != KeyOf(xs[6])
  }

  /** Eight entries whose probes begin at these slots, the third with key 0. */
  predicate Colliding(xs: Dict) {
    && |xs| == 8 && DistinctKeys(xs)
    && ProbeOf(xs[0]) == 0 && ProbeOf(xs[1]) == 1 && ProbeOf(xs[2]) == 0 && ProbeOf(xs[3]) == 2944
    && ProbeOf(xs[4]) == 9006 && ProbeOf(xs[5]) == 6924 && ProbeOf(xs[6]) == 9006 && ProbeOf(xs[7]) == 141
  }

  lemma FirstFour(xs: Dict) returns (depth: seq<nat>, h: seq<int>)
    requires Colliding(xs)
    ensures |depth| == 4 && Probed(xs[..4], depth) && h == Filled(xs[..4], depth)
    ensures h == seq(HSIZE, _ => -1)[0 := KeyOf(xs[0])][1 := KeyOf(xs[1])][18012 := 0][2944 := KeyOf(xs[3])]
  {
    h, depth := Filled([], []), [];
    ProbedFirst(xs[..0], depth, h, xs[0], 0);
    h, depth := h[0 := KeyOf(xs[0])], depth + [0];
    assert xs[..1] == xs[..0] + [xs[0]];
    ProbedFirst(xs[..1], depth, h, xs[1], 1);
    h, depth := h[1 := KeyOf(xs[1])], depth + [0];
    assert xs[..2] == xs[..1] + [xs[1]];
    ProbedSecond(xs[..2], depth, h, xs[2], 0, 18012);
    h, depth := h[18012 := 0], depth + [1];
    assert xs[..3] == xs[..2] + [xs[2]];
    ProbedFirst(xs[..3], depth, h, xs[3], 2944);
    h, depth := h[2944 := KeyOf(xs[3])], depth + [0];
    assert xs[..4] == xs[..3] + [xs[3]];
  }

  lemma LastFour(xs: Dict, depth0: seq<nat>, h0: seq<int>) returns (depth: seq<nat>, h: seq<int>)
    requires Colliding(xs) && |depth0| == 4 && Probed(xs[..4], depth0) && h0 == Filled(xs[..4], depth0)
    requires h0 == seq(HSIZE, _ => -1)[0 := KeyOf(xs[0])][1 := KeyOf(xs[1])][18012 := 0][2944 := KeyOf(xs[3])]
    ensures |depth| == 8 && Probed(xs, depth) && h == Filled(xs, depth)
    ensures h[0] == KeyOf(xs[0]) && h[18012] == KeyOf(xs[6]) && h[18011] == -1
  {
    h, depth := h0, depth0;
    ProbedFirst(xs[..4], depth, h, xs[4], 9006);
    h, depth := h[9006 := KeyOf(xs[4])], depth + [0];
    assert xs[..5] == xs[..4] + [xs[4]];
    ProbedFirst(xs[..5], depth, h, xs[5], 6924);
    h, depth := h[6924 := KeyOf(xs[5])], depth + [0];
    assert xs[..6] == xs[..5] + [xs[5]];
    ProbedSecond(xs[..6], depth, h, xs[6], 9006, 18012);
    h, depth := h[18012 := KeyOf(xs[6])], depth + [1];
    assert xs[..7] == xs[..6] + [xs[6]];
    ProbedFirst(xs[..7], depth, h, xs[7], 141);
    h, depth := h[141 := KeyOf(xs[7])], depth + [0];
    assert xs == xs[..7] + [xs[7]];
  }

  /** The last of them but one takes the slot of the entry with key 0, whose own probe then misses. */
  lemma Displaces(xs: Dict) returns (depth: seq<nat>)
    requires Colliding(xs)
    ensures |depth| == |xs| && Probed(xs, depth) && ProbeMiss(Filled(xs, depth), xs[2].prefix, xs[2].ch, 2)
  {
    var h;
    depth, h := FirstFour(xs);
    depth, h := LastFour(xs, depth, h);
    var x := xs[2];
    assert Slot(x.prefix, x.ch, 0) == 0;
    assert Slot(x.prefix, x.ch, 1) == 18012;
    assert Slot(x.prefix, x.ch, 2) == 18011;
  }

  /** The input whose bytes, all missed, make these entries. */
  function Feed(first: byte, xs: Dict): (s: seq<byte>)
    ensures |s| == |xs| + 1
  {
    [first] + seq(|xs|, i requires 0 <= i < |xs| => xs[i].ch)
  }

  function Misses(n: nat): (cs: seq<Choice>)
    ensures |cs| == n
  {
    seq(n, _ => Miss)
  }

  /** Each entry extends the byte before it, and none is made twice. */
  predicate Chained(first: byte, xs: Dict) {
    && (forall i :: 0 <= i < |xs| ==> xs[i].prefix == Feed(first, xs)[i])
    && (forall i, j :: 0 <= i < j < |xs| ==> xs[i] != xs[j])
  }

  lemma MissEnters(e: Enc, xs: Dict)
    requires 0 < |xs| < 200 && e.dict == xs[..|xs| - 1] && e.nbits == INIT_BITS && e.ent == xs[|xs| - 1].prefix
    requires forall i :: 0 <= i < |xs| - 1 ==> xs[i] != xs[|xs| - 1]
    ensures ChoiceOk(e, xs[|xs| - 1].ch, Miss)
    ensures var f := EncStep(e, xs[|xs| - 1].ch, Miss);
            f.dict == xs && f.nbits == INIT_BITS && f.ent == xs[|xs| - 1].ch
  {
    Pow2Values();
    assert xs == e.dict + [xs[|xs| - 1]];
  }

  lemma ChainedFront(first: byte, xs: Dict, n: nat)
    requires Chained(first, xs) && |xs| == n + 1
    ensures Chained(first, xs[..n]) && Feed(first, xs)[..n + 1] == Feed(first, xs[..n]) &&
      Misses(n + 1)[..n] == Misses(n)
    ensures xs[n].prefix == Feed(first, xs[..n])[n] && Feed(first, xs)[n + 1] == xs[n].ch
    ensures forall i :: 0 <= i < n ==> xs[i] != xs[n]
  {
    assert Feed(first, xs)[..n + 1] == Feed(first, xs[..n]);
    forall i | 0 <= i < n ensures xs[..n][i].prefix == Feed(first, xs[..n])[i] {
      assert xs[i].prefix == Feed(first, xs)[i];
    }
  }

  lemma {:induction false} AllMisses(first: byte, xs: Dict)
    requires Chained(first, xs) && |xs| < 200
    ensures ValidRun(Feed(first, xs), Misses(|xs|))
    ensures var e := EncRun(Feed(first, xs), Misses(|xs|));
            e.dict == xs && e.nbits == INIT_BITS && e.ent == Feed(first, xs)[|xs|]
  {
    if xs != [] {
      var n := |xs| - 1;
      ChainedFront(first, xs, n);
      AllMisses(first, xs[..n]);
      MissEnters(EncRun(Feed(first, xs[..n]), Misses(n)), xs);
    }
  }

  function LosingEntries(): Dict {
    [Entry(64, 1), Entry(1, 0), Entry(0, 0), Entry(0, 46)] +
    [Entry(46, 140), Entry(140, 110), Entry(110, 141), Entry(141, 0)]
  }

  lemma LosingCollide(xs: Dict)
    requires xs == LosingEntries()
    ensures Colliding(xs)
  {
    LosingKeys(xs);
    LosingLow(xs[1], xs[2], xs[3], xs[4]);
    LosingMiddle(xs[0], xs[6]);
    LosingHigh(xs[5], xs[7]);
  }

  lemma LosingKeys(xs: Dict)
    requires xs == LosingEntries()
    ensures DistinctKeys(xs)
  {
  }

  lemma LosingFeed(xs: Dict, input: seq<byte>)
    requires xs == LosingEntries() && input == [64, 1, 0, 0, 46, 140, 110, 141, 0]
    ensures Feed(64, xs) == input && Chained(64, xs)
  {
    forall i | 0 <= i < |input| ensures Feed(64, xs)[i] == input[i] {}
    LosingPrefixes(xs, input);
    LosingDistinct(xs);
  }

  lemma LosingPrefixes(xs: Dict, input: seq<byte>)
    requires xs == LosingEntries() && input == [64, 1, 0, 0, 46, 140, 110, 141, 0]
    ensures forall i :: 0 <= i < |xs| ==> xs[i].prefix == input[i]
  {
  }

  lemma LosingDistinct(xs: Dict)
    requires xs == LosingEntries()
    ensures forall i, j :: 0 <= i < j < |xs| ==> xs[i] != xs[j]
  {
  }

  lemma LosingLow(b: Entry, c: Entry, d: Entry, e: Entry)
    requires b == Entry(1, 0) && c == Entry(0, 0) && d == Entry(0, 46) && e == Entry(46, 140)
    ensures ProbeOf(b) == 1 && ProbeOf(c) == 0 && ProbeOf(d) == 2944 && ProbeOf(e) == 9006
  {
    LowProbe(b);
    LowProbe(c);
    LowProbe(d);
    LowProbe(e);
  }

  lemma LosingMiddle(a: Entry, g: Entry)
    requires a == Entry(64, 1) && g == Entry(110, 141)
    ensures ProbeOf(a) == 0 && ProbeOf(g) == 9006
  {
    MiddleProbe(a, 0);
    MiddleProbe(g, 140);
  }

  lemma LosingHigh(f: Entry, h: Entry)
    requires f == Entry(140, 110) && h == Entry(141, 0)
    ensures ProbeOf(f) == 6924 && ProbeOf(h) == 141
  {
    HighProbe(f, 55, 108);
    HighProbe(h, 0, 2);
  }

  /**
   * The entry of key 0 can be displaced: after the bytes 64, 1, 0, 0, 46, 140, 110, 141, 0 it is in the
   * dictionary, code 0 is pending, and a next byte 0 probes for it and misses.
   */
  lemma KeyZeroIsLost() returns (dict: Dict, depth: seq<nat>)
    ensures Feed(64, dict) == [64, 1, 0, 0, 46, 140, 110, 141, 0] && ValidRun(Feed(64, dict), Misses(|dict|))
    ensures var e := EncRun(Feed(64, dict), Misses(|dict|)); e.dict == dict && e.ent == 0
    ensures |depth| == |dict| && Probed(dict, depth)
    ensures Entry(0, 0) in dict && ProbeMiss(Filled(dict, depth), 0, 0, 2)
  {
    dict := LosingEntries();
    LosingCollide(dict);
    depth := Displaces(dict);
    assert dict[2] == Entry(0, 0);
    LosingFeed(dict, [64, 1, 0, 0, 46, 140, 110, 141, 0]);
    AllMisses(64, dict);
  }
}
