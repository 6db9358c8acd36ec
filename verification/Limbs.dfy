/** Multi-precision numbers as little-endian limbs of 32 bits (_attic_/BigInt.cpp). */
module Limbs {
  const B: int := 0x1_0000_0000

  /** A limb; C++ u32. */
  type u32 = x: int | 0 <= x < 0x1_0000_0000

  /** B to the n: what a limb at position n weighs. */
  function Pow(n: nat): (p: nat)
    ensures p > 0
  {
    if n == 0 then 1 else B * Pow(n - 1)
  }

  /** The number the limbs stand for. */
  function Val(s: seq<u32>): nat {
    if s == [] then 0 else s[0] + B * Val(s[1..])
  }

  lemma {:induction false} PowSum(m: nat, n: nat)
    ensures Pow(m + n) == Pow(m) * Pow(n)
  {
    if m > 0 {
      PowSum(m - 1, n);
      Regroup(B, Pow(m - 1), Pow(n));
    }
  }

  lemma Regroup(x: int, y: int, z: int)
    ensures x * (y * z) == (x * y) * z
  {}

  lemma Commute(x: int, y: int)
    ensures x * y == y * x
  {}

  lemma Distribute(x: int, y: int, z: int)
    ensures x * (y + z) == x * y + x * z && (y + z) * x == y * x + z * x
  {}

  lemma {:induction false} ValAppend(s: seq<u32>, t: seq<u32>)
    ensures Val(s + t) == Val(s) + Pow(|s|) * Val(t)
  {
    if s == [] {
      assert s + t == t;
    } else {
      assert (s + t)[1..] == s[1..] + t;
      ValAppend(s[1..], t);
      Regroup(B, Pow(|s| - 1), Val(t));
    }
  }

  lemma ValSplit(s: seq<u32>, k: nat)
    requires k <= |s|
    ensures Val(s) == Val(s[..k]) + Pow(k) * Val(s[k..])
  {
    assert s == s[..k] + s[k..];
    ValAppend(s[..k], s[k..]);
  }

  lemma ValOne(x: u32)
    ensures Val([x]) == x
  {
    assert [x][1..] == [];
  }

  lemma ValSnoc(s: seq<u32>, x: u32)
    ensures Val(s + [x]) == Val(s) + Pow(|s|) * x
  {
    ValAppend(s, [x]);
    ValOne(x);
  }

  lemma {:induction false} ValBound(s: seq<u32>)
    ensures Val(s) < Pow(|s|)
  {
    if s != [] {
      ValBound(s[1..]);
    }
  }

  /** Equally many limbs that stand for the same number are the same limbs. */
  lemma {:induction false} ValUnique(s: seq<u32>, t: seq<u32>)
    requires |s| == |t| && Val(s) == Val(t)
    ensures s == t
  {
    if s != [] {
      assert s[0] == Val(s) % B && t[0] == Val(t) % B;
      ValUnique(s[1..], t[1..]);
      assert s == [s[0]] + s[1..] && t == [t[0]] + t[1..];
    }
  }

  lemma {:induction false} ValZeros(s: seq<u32>)
    requires forall i :: 0 <= i < |s| ==> s[i] == 0
    ensures Val(s) == 0
  {
    if s != [] {
      ValZeros(s[1..]);
    }
  }

  /** The limbs, with the carry c above them, make v. */
  ghost predicate Makes(s: seq<u32>, c: int, v: int) {
    SumIs(Val(s), Pow(|s|), c, v)
  }

  ghost predicate SumIs(low: int, p: int, c: int, v: int) {
    low + p * c == v
  }

  lemma MakesAll(s: seq<u32>, v: int)
    ensures Makes(s, 0, v) <==> Val(s) == v
  {
    assert Pow(|s|) * 0 == 0;
  }

  /** s and t agree outside positions lo to hi. */
  predicate Same(s: seq<u32>, t: seq<u32>, lo: int, hi: int) {
    |s| == |t| && forall i :: 0 <= i < |s| && !(lo <= i < hi) ==> s[i] == t[i]
  }

  /** One step of a carrying loop: limbs x and y and the carry c in give the limb r % B and the carry r / B. */
  lemma CarryStep(p: nat, c: int, x: int, y: int, r: int)
    requires r == x + y + c
    ensures p * (r % B) + (B * p) * (r / B) == p * x + p * y + p * c
  {
    assert r == B * (r / B) + r % B;
    Distribute(p, B * (r / B), r % B);
    Regroup(p, B, r / B);
    Distribute(p, x + y, c);
    Distribute(p, x, y);
    assert p * B == B * p;
  }

  lemma MulLess(p: int, x: int, y: int)
    requires p > 0
    ensures x < y <==> p * x < p * y
  {
    assert p * y - p * x == p * (y - x);
  }

  lemma Cancel(p: int, x: int, y: int)
    requires p > 0
    ensures p * x == p * y <==> x == y
  {
    MulLess(p, x, y);
    MulLess(p, y, x);
  }

  ghost predicate ProductIs(x: int, y: int, z: int) {
    x * y == z
  }

  lemma PowProduct(m: nat, n: nat)
    ensures ProductIs(Pow(m), Pow(n), Pow(m + n))
  {
    PowSum(m, n);
  }

  lemma SplitSum(s: seq<u32>, k: nat)
    requires k <= |s|
    ensures SumIs(Val(s[..k]), Pow(k), Val(s[k..]), Val(s))
  {
    ValSplit(s, k);
  }

  lemma SubSlice(s: seq<u32>, a: nat, b: nat, c: nat, d: nat)
    requires a <= b <= |s| && c <= d <= b - a
    ensures s[a..b][c..d] == s[a + c..a + d]
  {
    var t := s[a..b];
    forall i | 0 <= i < d - c ensures t[c..d][i] == s[a + c..a + d][i] {}
  }
}
