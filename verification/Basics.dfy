/** The machine's unsigned integers, optional values, and facts shared by several parts. */
module Basics {
  type byte = b: int | 0 <= b < 0x100
  type u16 = h: int | 0 <= h < 0x1_0000
  type u32 = w: int | 0 <= w < 0x1_0000_0000
  type u64 = d: int | 0 <= d < 0x1_0000_0000_0000_0000

  datatype Option<+T> = None | Some(value: T)

  lemma SubsetSize(a: set<int>, b: set<int>)
    requires a <= b
    ensures |a| <= |b|
  {
    assert b == a + (b - a);
  }

  lemma AppendAssoc<T>(a: seq<T>, b: seq<T>, c: seq<T>)
    ensures (a + b) + c == a + (b + c)
  {
  }

  lemma TakeSnoc<T>(s: seq<T>, i: nat)
    requires i < |s|
    ensures s[..i + 1] == s[..i] + [s[i]]
  {
  }

  lemma TailSnoc<T>(s: seq<T>, x: T)
    requires s != []
    ensures (s + [x])[0] == s[0] && (s + [x])[1..] == s[1..] + [x]
  {
  }

  function Pow2(n: nat): (p: nat)
    ensures p >= 1
  {
    if n == 0 then 1 else 2 * Pow2(n - 1)
  }
}
