/** Squares of multi-precision numbers: doubled cross products on top of the limbs' squares (_attic_/BigInt.cpp). */
module Squares {
  import opened Limbs
  import opened LimbShift
  import opened LimbProduct
  import opened Karatsuba

  /** The products of different limbs, each pair once, one limb down; and the squares of the limbs. */
  function CrossSum(x: seq<u32>): nat {
    if x == [] then 0 else x[0] * Val(x[1..]) + B * (B * CrossSum(x[1..]))
  }

  function Diagonal(x: seq<u32>): nat {
    if x == [] then 0 else x[0] as int * x[0] as int + B * (B * Diagonal(x[1..]))
  }

  /** A square is the limbs' squares and twice the cross products. */
  lemma {:induction false} SquareIs(x: seq<u32>)
    ensures Val(x) * Val(x) == Diagonal(x) + B * (2 * CrossSum(x))
  {
    if x != [] {
      SquareIs(x[1..]);
      var a, t := x[0] as int, Val(x[1..]);
      Expand(a, B * t, a, B * t);
      Regroup(B, t, B * t);
      Regroup(t, B, t);
      Commute(B * t, a);
      Rotate(a, B, t);
      Commute(t, a);
      assert (B * t) * (B * t) == B * (B * (t * t)) by { SquareOfProduct(t); }
    }
  }

  lemma SquareOfProduct(t: int)
    ensures (B * t) * (B * t) == B * (B * (t * t))
  {
    Regroup(B * t, B, t);
    Commute(B * t, B);
    Regroup(B, B * t, t);
    Regroup(B, t, t);
  }

  /** What the first i rows have put in the buffer, and what is to come. */
  ghost predicate CrossRows(cp: seq<u32>, x: seq<u32>, i: nat) {
    && |cp| == 2 * |x| && 0 < i < |x|
    && Val(cp[1..|x| + i]) + Pow(2 * i) * CrossSum(x[i..]) == CrossSum(x)
  }

  lemma FirstCrossRow(cp: seq<u32>, s: seq<u32>, x: seq<u32>, c: u32)
    requires |x| >= 2 && |s| == 2 * |x| && cp == s[|x| := c]
    requires Makes(s[1..1 + (|x| - 1)], c, x[0] * Val(x[1..]))
    ensures CrossRows(cp, x, 1)
  {
    hide Val;
    assert cp[1..|x| + 1] == s[1..1 + (|x| - 1)] + [c];
    ValSnoc(s[1..1 + (|x| - 1)], c);
    PowTwo(0);
  }

  lemma PowTwo(i: nat)
    ensures Pow(2 * (i + 1)) == B * (B * Pow(2 * i)) && Pow(0) == 1
  {
    assert Pow(2 * i + 2) == B * Pow(2 * i + 1);
  }

  lemma NextCrossRow(cp: seq<u32>, s: seq<u32>, s0: seq<u32>, x: seq<u32>, i: nat, c: u32, t: nat)
    requires CrossRows(s0, x, i) && i + 1 < |x| && |s| == |s0|
    requires Same(s, s0, 2 * i + 1, |x| + i) && cp == s[|x| + i := c]
    requires t == x[i] * Val(x[i + 1..]) && Makes(s[2 * i + 1..|x| + i], c, Val(s0[2 * i + 1..|x| + i]) + t)
    ensures CrossRows(cp, x, i + 1)
  {
    hide Val, Pow, CrossSum, Makes;
    var pre, mid, mid' := s0[1..2 * i + 1], s0[2 * i + 1..|x| + i], s[2 * i + 1..|x| + i];
    RowAdded(pre, mid, mid', c, t);
    assert cp[1..|x| + (i + 1)] == pre + mid' + [c];
    assert s0[1..|x| + i] == pre + mid;
    CrossRest(x, i);
  }

  lemma CrossRest(x: seq<u32>, i: nat)
    requires i < |x|
    ensures Pow(2 * i) * CrossSum(x[i..])
              == Pow(2 * i) * (x[i] * Val(x[i + 1..])) + Pow(2 * (i + 1)) * CrossSum(x[i + 1..])
  {
    hide Val, Pow;
    var p, t := Pow(2 * i), CrossSum(x[i + 1..]);
    assert x[i..][1..] == x[i + 1..];
    Distribute(p, x[i] * Val(x[i + 1..]), B * (B * t));
    PowTwo(i);
    ThroughTwice(p, t);
  }

  lemma ThroughTwice(p: int, t: int)
    ensures p * (B * (B * t)) == B * (B * p) * t
  {
    Rotate(p, B, B * t);
    Rotate(p, B, t);
    Regroup(B, B * t, p);
    assert B * t * p == B * (t * p);
    Regroup(B, p, t);
    Regroup(B, B * p, t);
    Commute(p, t);
  }

  /** The cross products of x's limbs, each pair once, from limb 1 of the buffer on. */
  method CrossProducts(cp: array<u32>, x: seq<u32>)
    requires |x| >= 2 && cp.Length == 2 * |x|
    modifies cp
    ensures Val(cp[1..2 * |x| - 1]) == CrossSum(x)
  {
    hide Val, Pow, CrossSum, CrossRows, Makes;
    var n := |x|;
    var c := Multiply32(cp, 1, x[1..], x[0]);
    ghost var s := cp[..];
    assert s[1..1 + (n - 1)] == cp[1..1 + |x[1..]|];
    cp[n] := c;
    FirstCrossRow(cp[..], s, x, c);
    var i: nat := 1;
    while i < n - 1
      invariant 1 <= i <= n - 1 && CrossRows(cp[..], x, i)
    {
      CrossRow(cp, x, i);
      i := i + 1;
    }
    CrossRowsEnd(cp[..], x);
  }

  method CrossRow(cp: array<u32>, x: seq<u32>, i: nat)
    requires i + 1 < |x| && CrossRows(cp[..], x, i)
    modifies cp
    ensures CrossRows(cp[..], x, i + 1)
  {
    hide Val, Pow, CrossSum, Makes;
    ghost var s0, t := cp[..], x[i] * Val(x[i + 1..]);
    var c := AddMultiply32(cp, 2 * i + 1, x[i + 1..], x[i]);
    ghost var s1 := cp[..];
    assert s1[2 * i + 1..|x| + i] == cp[2 * i + 1..2 * i + 1 + |x[i + 1..]|];
    cp[|x| + i] := c;
    NextCrossRow(cp[..], s1, s0, x, i, c, t);
  }

  lemma CrossRowsEnd(cp: seq<u32>, x: seq<u32>)
    requires |x| >= 2 && CrossRows(cp, x, |x| - 1)
    ensures Val(cp[1..2 * |x| - 1]) == CrossSum(x)
  {
    hide Val, Pow, CrossSum;
    assert x[|x| - 1..] == [x[|x| - 1]];
    CrossOne(x[|x| - 1]);
    TimesZero(Pow(2 * (|x| - 1)));
    assert |x| + (|x| - 1) == 2 * |x| - 1;
  }

  lemma CrossOne(a: u32)
    ensures CrossSum([a]) == 0
  {
    assert [a][1..] == [];
    TimesZero(a);
  }

  lemma TimesZero(p: int)
    ensures p * 0 == 0
  {}

  ghost predicate Diagonals(now: seq<u32>, was: seq<u32>, at: nat, x: seq<u32>, i: nat) {
    && at + 2 * |x| <= |was| && i <= |x| && Same(now, was, at, at + 2 * i)
    && Val(now[at..at + 2 * i]) + Pow(2 * i) * Diagonal(x[i..]) == Diagonal(x)
  }

  lemma DiagonalStep(now: seq<u32>, now': seq<u32>, was: seq<u32>, at: nat, x: seq<u32>, i: nat, lo: u32, hi: u32)
    requires Diagonals(now, was, at, x, i) && i < |x| && now' == now[at + 2 * i := lo][at + 2 * i + 1 := hi]
    requires lo + B * hi == x[i] as int * x[i] as int
    ensures Diagonals(now', was, at, x, i + 1)
  {
    hide Val, Pow;
    var d, p, t := now[at..at + 2 * i], Pow(2 * i), Diagonal(x[i + 1..]);
    assert now'[at..at + 2 * (i + 1)] == (d + [lo]) + [hi];
    ValSnoc(d, lo);
    ValSnoc(d + [lo], hi);
    PowSum(2 * i, 1);
    PowOne();
    assert x[i..][1..] == x[i + 1..];
    Distribute(p, x[i] as int * x[i] as int, B * (B * t));
    PowTwo(i);
    ThroughTwice(p, t);
    Distribute(p, lo, B * hi);
    Regroup(p, B, hi);
  }

  lemma PowOne()
    ensures Pow(1) == B
  {}

  /** The squares of x's limbs. */
  method LimbSquares(product: array<u32>, at: nat, x: seq<u32>)
    requires at + 2 * |x| <= product.Length
    modifies product
    ensures Same(product[..], old(product[..]), at, at + 2 * |x|)
    ensures Val(product[at..at + 2 * |x|]) == Diagonal(x)
  {
    hide Val, Pow, Diagonal, Diagonals;
    ghost var was := product[..];
    var i: nat := 0;
    DiagonalsStart(was, at, x);
    while i < |x|
      invariant i <= |x| && Diagonals(product[..], was, at, x, i)
    {
      LimbTimes(x[i], x[i]);
      var si := x[i] as int * x[i] as int;
      ghost var now := product[..];
      product[at + 2 * i] := si % B;
      product[at + 2 * i + 1] := si / B;
      DiagonalStep(now, product[..], was, at, x, i, si % B, si / B);
      i := i + 1;
    }
    DiagonalsEnd(product[..], was, at, x);
  }

  lemma DiagonalsStart(was: seq<u32>, at: nat, x: seq<u32>)
    requires at + 2 * |x| <= |was|
    ensures Diagonals(was, was, at, x, 0)
  {
    assert was[at..at + 0] == [] && x[0..] == x;
  }

  lemma DiagonalsEnd(now: seq<u32>, was: seq<u32>, at: nat, x: seq<u32>)
    requires Diagonals(now, was, at, x, |x|)
    ensures Same(now, was, at, at + 2 * |x|) && Val(now[at..at + 2 * |x|]) == Diagonal(x)
  {
    hide Val, Pow;
    assert x[|x|..] == [];
    assert Diagonal([]) == 0;
    TimesZero(Pow(2 * |x|));
  }

  /** product = x squared, from the limbs' squares and twice the cross products. */
  method SimpleSquare(product: array<u32>, at: nat, x: seq<u32>)
    requires |x| >= 2 && at + 2 * |x| <= product.Length
    modifies product
    ensures Same(product[..], old(product[..]), at, at + 2 * |x|)
    ensures Val(product[at..at + 2 * |x|]) == Val(x) * Val(x)
  {
    hide Val, Pow, CrossSum, Diagonal;
    var n := |x|;
    var cp := new u32[2 * n];
    CrossProducts(cp, x);
    LimbSquares(product, at, x);
    SquareIs(x);
    SquareBelow(x);
    AddDoubled(product, at, cp[1..2 * n - 1], x, Val(x) * Val(x));
  }

  /** Adds twice the cross products one limb up, and their carry to the highest limb. */
  method AddDoubled(product: array<u32>, at: nat, cross: seq<u32>, x: seq<u32>, ghost total: nat)
    requires |x| >= 2 && at + 2 * |x| <= product.Length && |cross| == 2 * |x| - 2
    requires Val(product[at..at + 2 * |x|]) == Diagonal(x) && Val(cross) == CrossSum(x)
    requires Diagonal(x) + B * (2 * CrossSum(x)) == total < Pow(2 * |x|)
    modifies product
    ensures Same(product[..], old(product[..]), at, at + 2 * |x|) && Val(product[at..at + 2 * |x|]) == total
  {
    hide Val, Pow, CrossSum, Diagonal, Makes;
    var n := |x|;
    ghost var was, s := product[..], product[at..at + 2 * n];
    var c := AddLeftShift32(product, at + 1, cross, 1);
    ghost var s1 := product[at..at + 2 * n];
    MiddleFrame(was, product[..], at, 1, 2 * n - 1, 2 * n);
    Doubled(s, s1, x, cross, c, total);
    product[at + 2 * n - 1] := (product[at + 2 * n - 1] as int + c) % B;
    assert product[at..at + 2 * n] == s1[2 * n - 1 := s1[2 * n - 1] + c];
  }

  lemma Doubled(s: seq<u32>, s1: seq<u32>, x: seq<u32>, cross: seq<u32>, c: u32, total: nat)
    requires |x| >= 2 && |s| == |s1| == 2 * |x| && |cross| == 2 * |x| - 2 && Same(s1, s, 1, 2 * |x| - 1)
    requires Val(s) == Diagonal(x) && Val(cross) == CrossSum(x)
    requires Diagonal(x) + B * (2 * CrossSum(x)) == total < Pow(2 * |x|)
    requires Makes(s1[1..2 * |x| - 1], c, Val(s[1..2 * |x| - 1]) + Two(1) * Val(cross))
    ensures s1[2 * |x| - 1] as int + c < B
    ensures Val(s1[2 * |x| - 1 := s1[2 * |x| - 1] as int + c]) == total
  {
    hide Val, Pow, CrossSum, Diagonal, Two, TopHeavy, Makes;
    var k := 2 * |x| - 1;
    TwoOne();
    TopLimb(s, s1, k, c, 2 * Val(cross), total);
    TopLimbFits(s1[..k], s1[k], c, total);
    assert s1[k := s1[k] as int + c] == s1[..k] + [s1[k] as int + c];
  }

  /** t with a top limb that is yet to take a carry. */
  ghost predicate TopHeavy(t: seq<u32>, top: u32, c: u32, total: int) {
    Val(t) + Pow(|t|) * (top as int + c) == total < Pow(|t| + 1)
  }

  lemma TwoOne()
    ensures Two(1) == 2
  {
    assert Two(0) == 1;
  }

  lemma SquareBelow(x: seq<u32>)
    ensures Val(x) * Val(x) < Pow(2 * |x|)
  {
    hide Val, Pow;
    ValBound(x);
    Below(Val(x), Val(x), Pow(|x|));
    PowSum(|x|, |x|);
  }

  lemma TopLimb(s: seq<u32>, s1: seq<u32>, k: nat, c: u32, v: int, total: int)
    requires |s| == |s1| == k + 1 && k > 0 && Same(s1, s, 1, k) && Makes(s1[1..k], c, Val(s[1..k]) + v)
    requires Val(s) + B * v == total < Pow(k + 1)
    ensures TopHeavy(s1[..k], s1[k], c, total)
  {
    hide Val, Pow, Makes;
    assert s[..k][1..] == s[1..k] && s1[..k][1..] == s1[1..k] && s[..k][..1] == s1[..k][..1];
    UpperAdd(s[..k], s1[..k], 1, c, v);
    PowOne();
    TopLimbCarry(s, s1, k, c, B * v);
  }

  lemma TopLimbCarry(s: seq<u32>, s1: seq<u32>, k: nat, c: u32, v: int)
    requires |s| == |s1| == k + 1 && s1[k] == s[k] && Makes(s1[..k], c, Val(s[..k]) + v)
    ensures Val(s1[..k]) + Pow(k) * (s1[k] as int + c) == Val(s) + v
  {
    hide Val, Pow;
    assert s == s[..k] + [s[k]];
    ValSnoc(s[..k], s[k]);
    Distribute(Pow(k), s1[k], c);
  }

  lemma TopLimbFits(t: seq<u32>, top: u32, c: u32, total: int)
    requires TopHeavy(t, top, c, total)
    ensures top as int + c < B && Val(t + [top as int + c]) == total
  {
    hide Val;
    MulLess(Pow(|t|), top as int + c, B);
    Commute(B, Pow(|t|));
    ValSnoc(t, top as int + c);
  }

  /** product = x squared, for every limb count from 2. */
  method Square(product: array<u32>, at: nat, x: seq<u32>)
    requires |x| >= 2 && at + 2 * |x| <= product.Length
    modifies product
    ensures Same(product[..], old(product[..]), at, at + 2 * |x|)
    ensures Val(product[at..at + 2 * |x|]) == Val(x) * Val(x)
    decreases |x|
  {
    hide Val, Pow;
    var n := |x|;
    if n < 40 || n % 2 == 1 {
      SimpleSquare(product, at, x);
      return;
    }
    var h := n / 2;
    Square(product, at, x[..h]);
    ghost var low := product[at..at + n];
    Square(product, at + n, x[h..]);
    assert product[at..at + n] == low;
    var cross := new u32[n];
    Multiply(cross, 0, x[..h], x[h..]);
    assert cross[..] == cross[0..0 + 2 * h];
    AddTwice(product, at, cross[..], x, h);
  }

  /** Adds twice the product of the halves at the half limb, and its carry above that. */
  method AddTwice(product: array<u32>, at: nat, cross: seq<u32>, x: seq<u32>, h: nat)
    requires h > 0 && |x| == |cross| == 2 * h && at + 4 * h <= product.Length && Val(cross) == Val(x[..h]) * Val(x[h..])
    requires Val(product[at..at + 2 * h]) == Val(x[..h]) * Val(x[..h])
    requires Val(product[at + 2 * h..at + 4 * h]) == Val(x[h..]) * Val(x[h..])
    modifies product
    ensures Same(product[..], old(product[..]), at, at + 4 * h)
    ensures Val(product[at..at + 4 * h]) == Val(x) * Val(x)
  {
    hide Val, Pow, Nearly, Pending, Two, Makes;
    var n := 2 * h;
    ghost var was, s, total := product[..], product[at..at + 4 * h], Val(x) * Val(x);
    UpperFrame(was, was, at, 2 * h, 4 * h);
    BeforeTwice(s, x, h, Val(cross));
    var c := AddLeftShift32(product, at + n / 2, cross, 1);
    MiddleFrame(was, product[..], at, h, 3 * h, 4 * h);
    TwiceFits(s, product[at..at + 4 * h], c, Val(cross), h, total);
    AddCarry(product, at, c, h, total);
  }

  /** A buffer's slice, before and after its middle changed. */
  lemma MiddleFrame(was: seq<u32>, now: seq<u32>, at: nat, k: nat, l: nat, n: nat)
    requires Same(now, was, at + k, at + l) && k <= l <= n && at + n <= |was|
    ensures Same(now[at..at + n], was[at..at + n], k, l)
    ensures now[at..at + n][k..l] == now[at + k..at + l] && was[at..at + n][k..l] == was[at + k..at + l]
  {
    SubSlice(now, at, at + n, k, l);
    SubSlice(was, at, at + n, k, l);
  }

  lemma BeforeTwice(s: seq<u32>, x: seq<u32>, h: nat, cross: nat)
    requires |s| == 4 * h && |x| == 2 * h && cross == Val(x[..h]) * Val(x[h..])
    requires Val(s[..2 * h]) == Val(x[..h]) * Val(x[..h]) && Val(s[2 * h..]) == Val(x[h..]) * Val(x[h..])
    ensures Val(s) + Pow(h) * (2 * cross) == Val(x) * Val(x) < Pow(4 * h)
  {
    hide Val, Pow;
    ValSplit(s, 2 * h);
    Commute(Val(x[..h]), Val(x[h..]));
    Halves(x, x, h, Val(s[..2 * h]), Val(s[2 * h..]), 2 * cross);
  }

  lemma TwiceFits(s: seq<u32>, s1: seq<u32>, c: u32, cross: nat, h: nat, total: int)
    requires |s| == |s1| == 4 * h && c < B && Same(s1, s, h, 3 * h)
    requires 0 <= c && Makes(s1[h..3 * h], c, Val(s[h..3 * h]) + Two(1) * cross)
    requires Val(s) + Pow(h) * (2 * cross) == total < Pow(4 * h)
    ensures Nearly(s1, c, h, total)
  {
    hide Val, Pow, Two, Makes;
    TwoOne();
    assert s[..3 * h][h..] == s[h..3 * h] && s1[..3 * h][h..] == s1[h..3 * h] && s[..3 * h][..h] == s1[..3 * h][..h];
    UpperAdd(s[..3 * h], s1[..3 * h], h, c, 2 * cross);
    LowerAdd(s, s1, 3 * h, c, Pow(h) * (2 * cross));
    assert Val(s1) + Pow(3 * h) * c == Val(s) + Pow(h) * (2 * cross);
  }

  /** Adding v to the lower limbs of a buffer, the carry not yet passed on. */
  lemma LowerAdd(s: seq<u32>, s': seq<u32>, k: nat, c: int, v: int)
    requires |s| == |s'| && k <= |s| && s[k..] == s'[k..] && Makes(s'[..k], c, Val(s[..k]) + v)
    ensures Val(s') + Pow(k) * c == Val(s) + v
  {
    hide Val, Pow;
    ValSplit(s, k);
    ValSplit(s', k);
  }
}
