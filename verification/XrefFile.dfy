/** The cross-reference data file: an index of offsets, the source file names, then one tagged record per symbol. */
module XrefFile {
  import opened Basics

  /** A C string, without its terminator. */
  type Name = s: seq<byte> | forall i :: 0 <= i < |s| ==> s[i] != 0

  const TAG: seq<byte> := [0x53, 0x59, 0x4d]  // "SYM"

  /** A symbol as the file holds it: links are symbol ids. */
  datatype SymRec = SymRec(id: u32, flags: u32, name: Name, fid: u32, line: u32, calls: seq<u32>, calledBy: seq<u32>)

  datatype Res<+T> = Bad | Good(val: T, rest: seq<byte>)

  // ---------- writing: each function puts its bytes before `k` ----------

  function PutWord(n: nat, k: seq<byte>): (s: seq<byte>)
    ensures |s| == 4 + |k| && s[4..] == k
  {
    [n / 0x100_0000 % 0x100, n / 0x1_0000 % 0x100, n / 0x100 % 0x100, n % 0x100] + k
  }

  function PutWords(ns: seq<nat>, k: seq<byte>): (s: seq<byte>)
    ensures |s| == 4 * |ns| + |k|
  {
    if ns == [] then k else PutWord(ns[0], PutWords(ns[1..], k))
  }

  /** A length byte, which holds the length modulo 256, then the characters. */
  function PutName(n: Name, k: seq<byte>): (s: seq<byte>)
    ensures |s| == 1 + |n| + |k| && s[1 + |n|..] == k
  {
    [|n| % 0x100] + n + k
  }

  /** The tag and the fields up to the name. */
  function PutHead(id: u32, flags: u32, name: Name, k: seq<byte>): (s: seq<byte>)
    ensures |s| == 12 + |name| + |k| && s[12 + |name|..] == k
  {
    TAG + PutWord(id, PutWord(flags, PutName(name, k)))
  }

  /** The fields after the name, with the two link counts. */
  function PutCounts(fid: u32, line: u32, m: nat, n: nat, k: seq<byte>): (s: seq<byte>)
    ensures |s| == 16 + |k| && s[16..] == k
  {
    PutWord(fid, PutWord(line, PutWord(m, PutWord(n, k))))
  }

  function PutSym(r: SymRec, k: seq<byte>): seq<byte> {
    PutHead(r.id, r.flags, r.name,
      PutCounts(r.fid, r.line, |r.calls|, |r.calledBy|, PutWords(r.calls, PutWords(r.calledBy, k))))
  }

  /** The pieces of the file after its index: the source names, then the symbols. */
  function Pieces(fs: seq<Name>, rs: seq<SymRec>): (ps: seq<seq<byte>>)
    ensures |ps| == |fs| + |rs|
  {
    seq(|fs|, i requires 0 <= i < |fs| => PutName(fs[i], [])) + seq(|rs|, i requires 0 <= i < |rs| => PutSym(rs[i], []))
  }

  function Cat(ps: seq<seq<byte>>): seq<byte> {
    if ps == [] then [] else ps[0] + Cat(ps[1..])
  }

  /** Where each piece starts, when the first starts at `at`. */
  function Offsets(ps: seq<seq<byte>>, at: nat): (os: seq<nat>)
    ensures |os| == |ps|
  {
    if ps == [] then [] else [at] + Offsets(ps[1..], at + |ps[0]|)
  }

  function Index(fs: seq<Name>, rs: seq<SymRec>): (ix: seq<nat>)
    ensures |ix| == 3 + |fs| + |rs|
  {
    [0, |fs|, |rs|] + Offsets(Pieces(fs, rs), 4 * (3 + |fs| + |rs|))
  }

  /** The whole file. */
  function Image(fs: seq<Name>, rs: seq<SymRec>): seq<byte> {
    PutWords(Index(fs, rs), Cat(Pieces(fs, rs)))
  }

  // ---------- reading ----------

  function Int(b: byte): int { b }

  function GetWord(s: seq<byte>): (r: Res<u32>)
    ensures r.Good? ==> |r.rest| < |s|
  {
    if |s| < 4 then Bad else Good(Int(s[0]) * 0x100_0000 + Int(s[1]) * 0x1_0000 + Int(s[2]) * 0x100 + Int(s[3]), s[4..])
  }

  function GetWords(n: nat, s: seq<byte>): Res<seq<u32>> {
    if n == 0 then Good([], s) else
      var w := GetWord(s);
      if w.Bad? then Bad else
        var ws := GetWords(n - 1, w.rest);
        if ws.Bad? then Bad else Good([w.val] + ws.val, ws.rest)
  }

  function GetName(s: seq<byte>): Res<seq<byte>> {
    if s == [] || |s| < 1 + Int(s[0]) then Bad else Good(s[1..1 + Int(s[0])], s[1 + Int(s[0])..])
  }

  datatype Head = Head(id: u32, flags: u32, name: Name)

  datatype Counts = Counts(fid: u32, line: u32, ncalls: u32, ncalledBy: u32)

  function GetCounts(s: seq<byte>): Res<Counts> {
    var a := GetWord(s);
    if a.Bad? then Bad else
      var b := GetWord(a.rest);
      if b.Bad? then Bad else
        var c := GetWord(b.rest);
        if c.Bad? then Bad else
          var d := GetWord(c.rest);
          if d.Bad? then Bad else Good(Counts(a.val, b.val, c.val, d.val), d.rest)
  }

  // Sizes on a machine with 64-bit pointers.
  const XREF_BYTES := 72
  const POINTER_BYTES := 8

  /**
   * The allocation for `n` symbols that refer to one is large enough. It asks for `n` + 10 whole entries, and the
   * product goes through an `int`: it can be negative, which allocates nothing, or wrap to fewer bytes than needed.
   */
  predicate RoomFor(n: nat) {
    POINTER_BYTES * n <= (n + 10) * XREF_BYTES % 0x1_0000_0000 < 0x8000_0000
  }

  /** Bad where the source stores through a null pointer or past its allocation. */
  function GetLinks(c: Counts, s: seq<byte>): Res<(seq<u32>, seq<u32>)> {
    var a := GetWords(c.ncalls, s);
    if a.Bad? || !RoomFor(c.ncalledBy) then Bad else
      var b := GetWords(c.ncalledBy, a.rest);
      if b.Bad? then Bad else Good((a.val, b.val), b.rest)
  }

  /** The character array up to its first NUL, as every later string operation sees it. */
  function CString(s: seq<byte>): (n: Name)
    ensures |n| <= |s|
  {
    if s == [] || s[0] == 0 then [] else [s[0]] + CString(s[1..])
  }

  lemma {:induction false} CStringName(n: Name)
    ensures CString(n) == n
  {
    if n != [] {
      CStringName(n[1..]);
      assert n == [n[0]] + n[1..];
    }
  }

  /** A missing tag is the corruption the loader reports. */
  function GetHead(s: seq<byte>): Res<Head> {
    if |s| < 3 || s[..3] != TAG then Bad else
      var id := GetWord(s[3..]);
      if id.Bad? then Bad else
        var flags := GetWord(id.rest);
        if flags.Bad? then Bad else
          var name := GetName(flags.rest);
          if name.Bad? then Bad else Good(Head(id.val, flags.val, CString(name.val)), name.rest)
  }

  function GetSym(s: seq<byte>): Res<SymRec> {
    var h := GetHead(s);
    if h.Bad? then Bad else
      var c := GetCounts(h.rest);
      if c.Bad? then Bad else
        var l := GetLinks(c.val, c.rest);
        if l.Bad? then Bad else
          Good(SymRec(h.val.id, h.val.flags, h.val.name, c.val.fid, c.val.line, l.val.0, l.val.1), l.rest)
  }

  // ---------- each piece reads back ----------

  lemma WordRoundTrip(n: u32, k: seq<byte>)
    ensures GetWord(PutWord(n, k)) == Good(n, k)
  {
    Digits(n);
  }

  /** Words are written highest byte first: one more digit moves the others up. */
  lemma WordDigits(n: nat, b: byte, k: seq<byte>)
    requires n < 0x100_0000
    ensures PutWord(256 * n + b, k) == PutWord(n, [])[1..] + [b] + k
  {
    var m: nat := 256 * n + b;
    NextDigits(n, b, m);
    assert PutWord(n, [])[1..] == [n / 0x1_0000 % 0x100, n / 0x100 % 0x100, n % 0x100];
  }

  lemma NextDigits(n: nat, b: byte, m: nat)
    requires m == 256 * n + b
    ensures m % 0x100 == b && m / 0x100 == n && m / 0x1_0000 == n / 0x100 && m / 0x100_0000 == n / 0x1_0000
  {
  }

  lemma Digits(n: u32)
    ensures n / 0x100_0000 % 0x100 * 0x100_0000 + n / 0x1_0000 % 0x100 * 0x1_0000 + n / 0x100 % 0x100 * 0x100
      + n % 0x100 == n
  {
    var a := n / 0x100;
    var b := a / 0x100;
    assert n / 0x1_0000 == b && n / 0x100_0000 == b / 0x100;
  }

  lemma {:induction false} WordsRoundTrip(ns: seq<u32>, k: seq<byte>)
    ensures GetWords(|ns|, PutWords(ns, k)) == Good(ns, k)
  {
    if ns != [] {
      WordRoundTrip(ns[0], PutWords(ns[1..], k));
      WordsRoundTrip(ns[1..], k);
      assert ns == [ns[0]] + ns[1..];
    }
  }

  lemma NameRoundTrip(n: Name, k: seq<byte>)
    requires |n| < 0x100
    ensures GetName(PutName(n, k)) == Good(n, k)
  {
    var s := PutName(n, k);
    assert s[1..1 + |n|] == n;
  }

  /** The length byte of a longer name announces a shorter one. */
  lemma LongName(n: Name, k: seq<byte>)
    requires |n| >= 0x100
    ensures GetName(PutName(n, k)).Good? && |GetName(PutName(n, k)).val| == |n| % 0x100 < |n|
  {
  }

  /** A name reads back exactly when it is under 256 bytes. */
  lemma NameExact(n: Name, k: seq<byte>)
    ensures GetName(PutName(n, k)) == Good(n, k) <==> |n| < 0x100
  {
    if |n| < 0x100 {
      NameRoundTrip(n, k);
    } else {
      LongName(n, k);
    }
  }

  lemma CountsRoundTrip(c: Counts, k: seq<byte>)
    ensures GetCounts(PutCounts(c.fid, c.line, c.ncalls, c.ncalledBy, k)) == Good(c, k)
  {
    var s3 := PutWord(c.ncalledBy, k);
    var s2 := PutWord(c.ncalls, s3);
    var s1 := PutWord(c.line, s2);
    WordRoundTrip(c.fid, s1);
    WordRoundTrip(c.line, s2);
    WordRoundTrip(c.ncalls, s3);
    WordRoundTrip(c.ncalledBy, k);
  }

  lemma LinksRoundTrip(c: Counts, a: seq<u32>, b: seq<u32>, k: seq<byte>)
    requires c.ncalls == |a| && c.ncalledBy == |b|
    ensures GetLinks(c, PutWords(a, PutWords(b, k))) == if RoomFor(|b|) then Good((a, b), k) else Bad
  {
    WordsRoundTrip(a, PutWords(b, k));
    WordsRoundTrip(b, k);
  }

  /** Link counts are ints in the source. */
  predicate CountsFit(r: SymRec) {
    |r.calls| < 0x8000_0000 && |r.calledBy| < 0x8000_0000
  }

  /** What the loader can read. */
  predicate Readable(r: SymRec) {
    |r.name| < 0x100 && RoomFor(|r.calledBy|)
  }

  predicate Storable(r: SymRec) {
    Readable(r) && CountsFit(r)
  }

  /** Up to 29826151 symbols that refer to one always fit, and the next one does not. */
  lemma RoomForMany(n: nat)
    ensures n <= 29826151 ==> RoomFor(n)
    ensures !RoomFor(29826152)
  {
  }

  lemma HeadRoundTrip(h: Head, k: seq<byte>)
    requires |h.name| < 0x100
    ensures GetHead(PutHead(h.id, h.flags, h.name, k)) == Good(h, k)
  {
    HeadReads(h.id, h.flags, h.name, k);
    NameRoundTrip(h.name, k);
    CStringName(h.name);
  }

  /** The fields before the name always read back, and then the name is read. */
  lemma HeadReads(id: u32, flags: u32, name: Name, k: seq<byte>)
    ensures var n := GetName(PutName(name, k));
            GetHead(PutHead(id, flags, name, k)) ==
            if n.Bad? then Bad else Good(Head(id, flags, CString(n.val)), n.rest)
  {
    var s3 := PutName(name, k);
    var s2 := PutWord(flags, s3);
    var s1 := PutWord(id, s2);
    WordRoundTrip(id, s2);
    WordRoundTrip(flags, s3);
    var s := PutHead(id, flags, name, k);
    assert s == TAG + s1;
    assert s[..3] == TAG && s[3..] == s1;
  }

  lemma SymRoundTrip(r: SymRec, k: seq<byte>)
    requires CountsFit(r) && |r.name| < 0x100
    ensures GetSym(PutSym(r, k)) == if RoomFor(|r.calledBy|) then Good(r, k) else Bad
  {
    var c := Counts(r.fid, r.line, |r.calls|, |r.calledBy|);
    var links := PutWords(r.calls, PutWords(r.calledBy, k));
    LinksRoundTrip(c, r.calls, r.calledBy, k);
    CountsRoundTrip(c, links);
    HeadRoundTrip(Head(r.id, r.flags, r.name), PutCounts(c.fid, c.line, c.ncalls, c.ncalledBy, links));
  }

  /** Of a symbol with a long name, a shorter name is read. */
  lemma LongSym(r: SymRec, k: seq<byte>)
    requires |r.name| >= 0x100
    ensures GetSym(PutSym(r, k)).Good? ==> |GetSym(PutSym(r, k)).val.name| < |r.name|
  {
    var rest := PutCounts(r.fid, r.line, |r.calls|, |r.calledBy|, PutWords(r.calls, PutWords(r.calledBy, k)));
    HeadReads(r.id, r.flags, r.name, rest);
    LongName(r.name, rest);
  }

  /** A symbol reads back exactly when its name is under 256 bytes and there is room for its links; otherwise
      not even its name does. */
  lemma SymExact(r: SymRec, k: seq<byte>)
    requires CountsFit(r)
    ensures GetSym(PutSym(r, k)) == Good(r, k) <==> Readable(r)
    ensures !Readable(r) ==> GetSym(PutSym(r, k)).Bad? || GetSym(PutSym(r, k)).val.name != r.name
  {
    if |r.name| < 0x100 {
      SymRoundTrip(r, k);
    } else {
      LongSym(r, k);
    }
  }

  // ---------- the index finds each piece ----------

  lemma {:induction false} PutWordsAppend(ns: seq<nat>, k: seq<byte>)
    ensures PutWords(ns, k) == PutWords(ns, []) + k
  {
    if ns != [] { PutWordsAppend(ns[1..], k); }
  }

  lemma LinksAppend(a: seq<nat>, b: seq<nat>, k: seq<byte>)
    ensures PutWords(a, PutWords(b, k)) == PutWords(a, PutWords(b, [])) + k
  {
    PutWordsAppend(b, k);
    PutWordsAppend(a, PutWords(b, []) + k);
    PutWordsAppend(a, PutWords(b, []));
  }

  lemma PutSymAppend(r: SymRec, k: seq<byte>)
    ensures PutSym(r, k) == PutSym(r, []) + k
  {
    var ab := PutWords(r.calls, PutWords(r.calledBy, []));
    LinksAppend(r.calls, r.calledBy, k);
    CountsAppend(r.fid, r.line, |r.calls|, |r.calledBy|, ab, k);
    HeadAppend(r.id, r.flags, r.name, PutCounts(r.fid, r.line, |r.calls|, |r.calledBy|, ab), k);
  }

  lemma WordAppend(n: nat, s: seq<byte>, k: seq<byte>)
    ensures PutWord(n, s + k) == PutWord(n, s) + k
  {
  }

  lemma NameAppend(n: Name, s: seq<byte>, k: seq<byte>)
    ensures PutName(n, s + k) == PutName(n, s) + k
  {
  }

  lemma HeadAppend(id: u32, flags: u32, name: Name, s: seq<byte>, k: seq<byte>)
    ensures PutHead(id, flags, name, s + k) == PutHead(id, flags, name, s) + k
  {
    NameAppend(name, s, k);
    WordAppend(flags, PutName(name, s), k);
    WordAppend(id, PutWord(flags, PutName(name, s)), k);
    TagAppend(PutWord(id, PutWord(flags, PutName(name, s))), k);
  }

  lemma TagAppend(s: seq<byte>, k: seq<byte>)
    ensures TAG + (s + k) == (TAG + s) + k
  {
  }

  lemma CountsAppend(fid: u32, line: u32, m: nat, n: nat, s: seq<byte>, k: seq<byte>)
    ensures PutCounts(fid, line, m, n, s + k) == PutCounts(fid, line, m, n, s) + k
  {
    WordAppend(n, s, k);
    WordAppend(m, PutWord(n, s), k);
    WordAppend(line, PutWord(m, PutWord(n, s)), k);
    WordAppend(fid, PutWord(line, PutWord(m, PutWord(n, s))), k);
  }

  lemma SymLength(r: SymRec)
    ensures |PutSym(r, [])| == 28 + |r.name| + 4 * |r.calls| + 4 * |r.calledBy|
  {
  }

  lemma DropSkip(s: seq<byte>, t: seq<byte>, n: nat, p: nat)
    requires n + |t| == |s| && s[n..] == t && p <= |t|
    ensures s[n + p..] == t[p..]
  {
  }

  lemma {:induction false} PieceAt(ps: seq<seq<byte>>, at: nat, i: nat)
    requires i < |ps|
    ensures at <= Offsets(ps, at)[i] <= at + |Cat(ps)|
    ensures Cat(ps)[Offsets(ps, at)[i] - at..] == ps[i] + Cat(ps[i + 1..])
  {
    if i == 0 {
      assert Cat(ps)[0..] == Cat(ps);
    } else {
      var n, tail, j := |ps[0]|, ps[1..], i - 1;
      var at1 := at + n;
      PieceAt(tail, at1, j);
      assert tail[j + 1..] == ps[i + 1..];
      var o := Offsets(tail, at1)[j];
      assert Offsets(ps, at) == [at] + Offsets(tail, at1);
      DropSkip(Cat(ps), Cat(tail), n, o - at1);
    }
  }

  lemma {:induction false} SeekIn(ix: seq<nat>, ps: seq<seq<byte>>, i: nat)
    requires i < |ps| && |ix| == 3 + |ps| && ix[3..] == Offsets(ps, 4 * |ix|)
    ensures ix[3 + i] <= |PutWords(ix, Cat(ps))|
    ensures PutWords(ix, Cat(ps))[ix[3 + i]..] == ps[i] + Cat(ps[i + 1..])
  {
    var base := 4 * |ix|;
    PieceAt(ps, base, i);
    PutWordsAppend(ix, Cat(ps));
    assert ix[3 + i] == Offsets(ps, base)[i];
    DropSkip(PutWords(ix, Cat(ps)), Cat(ps), base, ix[3 + i] - base);
  }

  /** Seeking to an indexed offset of the file finds that piece and everything after it. */
  lemma SeekPiece(fs: seq<Name>, rs: seq<SymRec>, i: nat)
    requires i < |fs| + |rs|
    ensures Index(fs, rs)[3 + i] <= |Image(fs, rs)|
    ensures Image(fs, rs)[Index(fs, rs)[3 + i]..] == Pieces(fs, rs)[i] + Cat(Pieces(fs, rs)[i + 1..])
  {
    var ps, ix := Pieces(fs, rs), Index(fs, rs);
    assert ix[3..] == Offsets(ps, 4 * |ix|);
    SeekIn(ix, ps, i);
  }

  /** The symbol that seeking to index entry `i` reads: the one stored, exactly when it is readable. */
  lemma SeekSym(fs: seq<Name>, rs: seq<SymRec>, i: nat)
    requires i < |rs| && CountsFit(rs[i])
    ensures var at := Index(fs, rs)[3 + |fs| + i];
      && at <= |Image(fs, rs)|
      && var g := GetSym(Image(fs, rs)[at..]);
         && (g.Good? && g.val == rs[i] <==> Readable(rs[i]))
         && (!Readable(rs[i]) ==> g.Bad? || g.val.name != rs[i].name)
  {
    SeekPiece(fs, rs, |fs| + i);
    var k := Cat(Pieces(fs, rs)[|fs| + i + 1..]);
    PutSymAppend(rs[i], k);
    SymExact(rs[i], k);
  }

  /** And the source name, likewise. */
  lemma SeekName(fs: seq<Name>, rs: seq<SymRec>, i: nat)
    requires i < |fs|
    ensures var at := Index(fs, rs)[3 + i];
      && at <= |Image(fs, rs)|
      && var g := GetName(Image(fs, rs)[at..]);
         g.Good? && (g.val == fs[i] <==> |fs[i]| < 0x100) && (CString(g.val) == fs[i] <==> |fs[i]| < 0x100)
  {
    SeekPiece(fs, rs, i);
    var k := Cat(Pieces(fs, rs)[i + 1..]);
    assert PutName(fs[i], k) == PutName(fs[i], []) + k;
    if |fs[i]| < 0x100 {
      NameRoundTrip(fs[i], k);
      CStringName(fs[i]);
    } else {
      LongName(fs[i], k);
    }
  }

  lemma IndexFits(fs: seq<Name>, rs: seq<SymRec>, i: nat)
    requires i < 3 + |fs| + |rs|
    ensures |fs| + |rs| < |Image(fs, rs)| && Index(fs, rs)[i] <= |Image(fs, rs)|
  {
    PutWordsAppend(Index(fs, rs), Cat(Pieces(fs, rs)));
    if i >= 3 { SeekPiece(fs, rs, i - 3); }
  }

  /** The index itself reads back, and its offsets are ints, as long as the file is under 2^31 bytes. */
  lemma IndexReads(fs: seq<Name>, rs: seq<SymRec>)
    requires |Image(fs, rs)| < 0x8000_0000
    ensures GetWords(3 + |fs| + |rs|, Image(fs, rs)).Good? &&
      GetWords(3 + |fs| + |rs|, Image(fs, rs)).val == Index(fs, rs)
    ensures forall i :: 0 <= i < |Index(fs, rs)| ==> Index(fs, rs)[i] < 0x8000_0000
  {
    var ix := Index(fs, rs);
    forall i | 0 <= i < |ix| ensures ix[i] < 0x8000_0000 {
      IndexFits(fs, rs, i);
    }
    var ws: seq<u32> := ix;
    WordsRoundTrip(ws, Cat(Pieces(fs, rs)));
  }
}
