/** Karatsuba's product: three half products, and a middle one whose carry can go negative (_attic_/BigInt.cpp). */
module Karatsuba {
  import opened Limbs
  import opened LimbSum
  import opened LimbProduct

  lemma Expand(a: int, b: int, c: int, d: int)
    ensures (a + b) * (c + d) == a * c + a * d + b * c + b * d
  {
    Distribute(a + b, c, d);
    Distribute(c, a, b);
    Distribute(d, a, b);
  }

  /** What the steps make of the product `a` of the sums: less the outer products, with the sums' carries made good. */
  function Mended(a: int, low: int, high: int, hx: int, hy: int, hh: int, xc: int, yc: int): int {
    a - low - high + (if yc == 1 then hx else 0) + (if xc == 1 then hy else 0) + (if xc == 1 && yc == 1 then hh else 0)
  }

  /** That is the middle term. */
  lemma MiddleTerm(x0: int, x1: int, y0: int, y1: int, h: int, xs: int, xc: int, ys: int, yc: int)
    requires SumIs(xs, h, xc, x0 + x1) && SumIs(ys, h, yc, y0 + y1) && 0 <= xc <= 1 && 0 <= yc <= 1
    ensures Mended(xs * ys, x0 * y0, x1 * y1, h * xs, h * ys, h * h, xc, yc) == x0 * y1 + x1 * y0
  {
    Expand(x0, x1, y0, y1);
    assert (x0 + x1) * (y0 + y1) == (xs + h * xc) * (ys + h * yc);
    var hx, hy := if xc == 1 then h else 0, if yc == 1 then h else 0;
    Expand(xs, hx, ys, hy);
    Commute(xs, hy);
  }

  /** Adding v to the upper limbs of a buffer. */
  lemma UpperAdd(s: seq<u32>, s': seq<u32>, k: nat, t: int, v: int)
    requires |s| == |s'| && k <= |s| && s[..k] == s'[..k] && Makes(s'[k..], t, Val(s[k..]) + v)
    ensures Makes(s', t, Val(s) + Pow(k) * v)
  {
    hide Val, Pow, SumIs, ProductIs, Makes;
    UpperParts(s, s', k, t, v);
    UpperWhole(s, s', k, t, v);
  }

  lemma UpperParts(s: seq<u32>, s': seq<u32>, k: nat, t: int, v: int)
    requires |s| == |s'| && k <= |s| && s[..k] == s'[..k] && Makes(s'[k..], t, Val(s[k..]) + v)
    ensures SumIs(Val(s[..k]), Pow(k), Val(s[k..]), Val(s)) && SumIs(Val(s[..k]), Pow(k), Val(s'[k..]), Val(s'))
    ensures ProductIs(Pow(k), Pow(|s| - k), Pow(|s|)) && SumIs(Val(s'[k..]), Pow(|s| - k), t, Val(s[k..]) + v)
  {
    hide Val, Pow, SumIs, ProductIs;
    SplitSum(s, k);
    SplitSum(s', k);
    PowProduct(k, |s| - k);
  }

  lemma UpperWhole(s: seq<u32>, s': seq<u32>, k: nat, t: int, v: int)
    requires |s| == |s'| && k <= |s|
    requires SumIs(Val(s[..k]), Pow(k), Val(s[k..]), Val(s)) && SumIs(Val(s[..k]), Pow(k), Val(s'[k..]), Val(s'))
    requires ProductIs(Pow(k), Pow(|s| - k), Pow(|s|)) && SumIs(Val(s'[k..]), Pow(|s| - k), t, Val(s[k..]) + v)
    ensures Makes(s', t, Val(s) + Pow(k) * v)
  {
    hide Val, Pow, SumIs, ProductIs;
    UpperSum(Val(s[..k]), Val(s[k..]), Val(s'[k..]), Val(s), Val(s'), Pow(k), Pow(|s| - k), Pow(|s|), t, v);
  }

  lemma UpperSum(low: int, high: int, high': int, whole: int, whole': int, p: int, q: int, pq: int, t: int, v: int)
    requires SumIs(low, p, high, whole) && SumIs(low, p, high', whole')
    requires ProductIs(p, q, pq) && SumIs(high', q, t, high + v)
    ensures SumIs(whole', pq, t, whole + p * v)
  {
    Regroup(p, q, t);
    Distribute(p, high', q * t);
    Distribute(p, high, v);
  }

  /** A sum's carry joins the carry so far. */
  lemma CarryOn(s: seq<u32>, s': seq<u32>, carry: int, t: int, w: int, d: int)
    requires |s| == |s'| && Makes(s, carry, w) && Makes(s', t, Val(s) + d)
    ensures Makes(s', carry + t, w + d)
  {
    hide Val, Pow;
    Distribute(Pow(|s|), carry, t);
  }

  /** The middle term is below 2 h * h, so its carry ends as 0 or 1. */
  lemma MiddleCarry(x0: int, x1: int, y0: int, y1: int, h: int, v: int, c: int)
    requires 0 <= x0 < h && 0 <= x1 < h && 0 <= y0 < h && 0 <= y1 < h
    requires 0 <= v < h * h && SumIs(v, h * h, c, x0 * y1 + x1 * y0)
    ensures 0 <= c <= 1
  {
    Below(x0, y1, h);
    Below(x1, y0, h);
    var w := h * h;
    MulLess(w, -1, c);
    MulLess(w, c, 2);
    assert w * -1 == -w && w * 2 == w + w;
  }

  lemma Below(x: int, y: int, h: int)
    requires 0 <= x < h && 0 <= y < h
    ensures 0 <= x * y < h * h
  {
    LimbShift.MulAtMost(x, 0, y);
    LimbShift.MulAtMost(x, y, h);
    MulLess(h, x, h);
    Commute(x, h);
  }

  /** x0 * y1 + x1 * y0 in cross, with its carry. */
  ghost predicate Crossed(cross: seq<u32>, carry: int, x: seq<u32>, y: seq<u32>, h: nat) {
    && |x| == |y| == |cross| == 2 * h && 0 <= carry <= 1
    && Makes(cross, carry, Val(x[..h]) * Val(y[h..]) + Val(x[h..]) * Val(y[..h]))
  }

  /** The signed carry after subtracting both outer products and making good the carries of the sums. */
  method CrossProduct(cross: array<u32>, x: seq<u32>, y: seq<u32>, xsum: seq<u32>, xcarry: u32, ysum: seq<u32>,
                      ycarry: u32, low: seq<u32>, high: seq<u32>, h: nat)
    returns (carry: int)
    requires h > 0 && |x| == |y| == |low| == |high| == cross.Length == 2 * h
    requires |xsum| == |ysum| == h && xcarry <= 1 && ycarry <= 1
    requires Makes(xsum, xcarry, Val(x[..h]) + Val(x[h..])) && Makes(ysum, ycarry, Val(y[..h]) + Val(y[h..]))
    requires Val(cross[..]) == Val(xsum) * Val(ysum)
    requires Val(low) == Val(x[..h]) * Val(y[..h]) && Val(high) == Val(x[h..]) * Val(y[h..])
    modifies cross
    ensures Crossed(cross[..], carry, x, y, h)
  {
    hide Val, Pow, Crossed, Makes;
    var n := cross.Length;
    ghost var a, hx, hy, hh := Val(cross[..]), Pow(h) * Val(xsum), Pow(h) * Val(ysum), Pow(2 * h);
    MakesAll(cross[..], a);
    carry := TakeFrom(cross, low, 0, a);
    carry := TakeFrom(cross, high, carry, a - Val(low));
    ghost var w := a - Val(low) - Val(high);
    if ycarry != 0 {
      carry := AddUpper(cross, n / 2, xsum, carry, w);
      w := w + hx;
    }
    if xcarry != 0 {
      carry := AddUpper(cross, n / 2, ysum, carry, w);
      w := w + hy;
    }
    if xcarry == 1 && ycarry == 1 {
      OneMore(cross[..], carry, w);
      carry := carry + 1;
      w := w + hh;
    }
    CrossIs(cross[..], carry, x, y, xsum, xcarry, ysum, ycarry, h,
            Mended(a, Val(low), Val(high), hx, hy, hh, xcarry, ycarry));
  }

  lemma OneMore(s: seq<u32>, carry: int, w: int)
    requires Makes(s, carry, w)
    ensures Makes(s, carry + 1, w + Pow(|s|))
  {
    Distribute(Pow(|s|), carry, 1);
  }

  method TakeFrom(cross: array<u32>, v: seq<u32>, carry: int, ghost w: int) returns (carry': int)
    requires |v| == cross.Length > 0 && Makes(cross[..], carry, w)
    modifies cross
    ensures Makes(cross[..], carry', w - Val(v))
  {
    hide Val, Pow, Makes;
    var n := cross.Length;
    ghost var s := cross[..];
    assert cross[0..0 + n] == s;
    var t := Subtract(cross, 0, n, v);
    assert cross[0..0 + n] == cross[..];
    CarryOn(s, cross[..], carry, t, w, -(Val(v) as int));
    carry' := carry + t;
  }

  method AddUpper(cross: array<u32>, h: nat, v: seq<u32>, carry: int, ghost w: int) returns (carry': int)
    requires cross.Length == 2 * h && |v| == h > 0 && Makes(cross[..], carry, w)
    modifies cross
    ensures Makes(cross[..], carry', w + Pow(h) * Val(v))
  {
    hide Val, Pow, Makes;
    ghost var s := cross[..];
    assert cross[h..h + h] == s[h..];
    var t := Add(cross, h, h, v);
    assert cross[h..h + h] == cross[..][h..];
    UpperAdd(s, cross[..], h, t, Val(v));
    CarryOn(s, cross[..], carry, t, w, Pow(h) * Val(v));
    carry' := carry + t;
  }

  lemma CrossNumbers(x0: int, x1: int, y0: int, y1: int, h: int, xs: int, xc: int, ys: int, yc: int, v: int, c: int)
    requires SumIs(xs, h, xc, x0 + x1) && SumIs(ys, h, yc, y0 + y1) && 0 <= xc <= 1 && 0 <= yc <= 1
    requires 0 <= x0 < h && 0 <= x1 < h && 0 <= y0 < h && 0 <= y1 < h && 0 <= v < h * h
    requires SumIs(v, h * h, c, Mended(xs * ys, x0 * y0, x1 * y1, h * xs, h * ys, h * h, xc, yc))
    ensures 0 <= c <= 1 && SumIs(v, h * h, c, x0 * y1 + x1 * y0)
  {
    hide SumIs, Mended;
    MiddleTerm(x0, x1, y0, y1, h, xs, xc, ys, yc);
    MiddleCarry(x0, x1, y0, y1, h, v, c);
  }

  lemma CrossIs(cross: seq<u32>, carry: int, x: seq<u32>, y: seq<u32>, xsum: seq<u32>, xcarry: u32, ysum: seq<u32>,
                ycarry: u32, h: nat, w: int)
    requires |x| == |y| == |cross| == 2 * h && |xsum| == |ysum| == h && xcarry <= 1 && ycarry <= 1
    requires Makes(xsum, xcarry, Val(x[..h]) + Val(x[h..])) && Makes(ysum, ycarry, Val(y[..h]) + Val(y[h..]))
    requires Makes(cross, carry, w)
    requires w == Mended(Val(xsum) * Val(ysum), Val(x[..h]) * Val(y[..h]), Val(x[h..]) * Val(y[h..]),
                         Pow(h) * Val(xsum), Pow(h) * Val(ysum), Pow(2 * h), xcarry, ycarry)
    ensures Crossed(cross, carry, x, y, h)
  {
    hide Val, Pow, Mended, SumIs;
    ValBound(x[..h]);
    ValBound(x[h..]);
    ValBound(y[..h]);
    ValBound(y[h..]);
    ValBound(cross);
    PowSum(h, h);
    CrossNumbers(Val(x[..h]), Val(x[h..]), Val(y[..h]), Val(y[h..]), Pow(h), Val(xsum), xcarry, Val(ysum), ycarry,
                 Val(cross), carry);
  }

  /** Both halves of the product buffer, its middle term added at the half limb, and the middle's carry above it. */
  lemma Halves(x: seq<u32>, y: seq<u32>, h: nat, low: nat, high: nat, middle: nat)
    requires |x| == |y| == 2 * h && low == Val(x[..h]) * Val(y[..h]) && high == Val(x[h..]) * Val(y[h..])
    requires middle == Val(x[..h]) * Val(y[h..]) + Val(x[h..]) * Val(y[..h])
    ensures low + Pow(2 * h) * high + Pow(h) * middle == Val(x) * Val(y) < Pow(4 * h)
  {
    hide Val, Pow;
    ValSplit(x, h);
    ValSplit(y, h);
    PowSum(h, h);
    PowSum(2 * h, 2 * h);
    ValBound(x);
    ValBound(y);
    Below(Val(x), Val(y), Pow(2 * h));
    SquareOfSum(Val(x[..h]), Val(x[h..]), Val(y[..h]), Val(y[h..]), Pow(h));
  }

  lemma SquareOfSum(x0: int, x1: int, y0: int, y1: int, h: int)
    ensures (x0 + h * x1) * (y0 + h * y1) == x0 * y0 + h * h * (x1 * y1) + h * (x0 * y1 + x1 * y0)
  {
    Expand(x0, h * x1, y0, h * y1);
    Rotate(x0, h, y1);
    Commute(y1, x0);
    Regroup(h, x1, y0);
    Distribute(h, x0 * y1, x1 * y0);
    Regroup(h * x1, h, y1);
    Commute(h * x1, h);
    Regroup(h, h, x1);
    Regroup(h * h, x1, y1);
  }

  /** A buffer's slice in two, before and after its upper part changed. */
  lemma UpperFrame(was: seq<u32>, now: seq<u32>, at: nat, k: nat, n: nat)
    requires Same(now, was, at + k, at + n) && k <= n && at + n <= |was|
    ensures now[at..at + n][..k] == was[at..at + n][..k] == was[at..at + k]
    ensures now[at..at + n][k..] == now[at + k..at + n] && was[at..at + n][k..] == was[at + k..at + n]
  {}

  /** Adds the middle term at the half limb, and its carry above that. Neither sum carries out. */
  method AddMiddle(product: array<u32>, at: nat, cross: seq<u32>, carry: int, x: seq<u32>, y: seq<u32>, h: nat)
    requires h > 0 && |x| == |y| == 2 * h && at + 4 * h <= product.Length && Crossed(cross, carry, x, y, h)
    requires Val(product[at..at + 2 * h]) == Val(x[..h]) * Val(y[..h])
    requires Val(product[at + 2 * h..at + 4 * h]) == Val(x[h..]) * Val(y[h..])
    modifies product
    ensures Same(product[..], old(product[..]), at, at + 4 * h)
    ensures Val(product[at..at + 4 * h]) == Val(x) * Val(y)
  {
    hide Val, Pow, Crossed, Pending, Nearly, Makes;
    var n := 2 * h;
    ghost var was, s, total := product[..], product[at..at + 4 * h], Val(x) * Val(y);
    UpperFrame(was, was, at, 2 * h, 4 * h);
    BeforeMiddle(s, cross, carry, x, y, h);
    var wide := Add(product, at + n / 2, n * 3 / 2, cross);
    UpperFrame(was, product[..], at, h, 4 * h);
    MiddleFits(s, product[at..at + 4 * h], wide, cross, carry, h, total);
    AddCarry(product, at, carry + wide, h, total);
  }

  /** Rolls the middle term's carry up into the upper quarter. */
  method AddCarry(product: array<u32>, at: nat, carry: int, h: nat, ghost total: int)
    requires h > 0 && at + 4 * h <= product.Length && 0 <= carry < B && Nearly(product[at..at + 4 * h], carry, h, total)
    modifies product
    ensures Same(product[..], old(product[..]), at + 3 * h, at + 4 * h) && Val(product[at..at + 4 * h]) == total
  {
    hide Val, Pow, Nearly, Makes;
    var n := 2 * h;
    ghost var was, s1 := product[..], product[at..at + 4 * h];
    if carry != 0 {
      var top := Add32(product, at + n * 3 / 2, n / 2, carry);
      UpperFrame(was, product[..], at, 3 * h, 4 * h);
      TopFits(s1, product[at..at + 4 * h], top, carry, h, total);
    } else {
      NothingLeft(s1, h, total);
    }
  }

  lemma NothingLeft(s: seq<u32>, h: nat, total: int)
    requires Nearly(s, 0, h, total)
    ensures Val(s) == total
  {}

  /** The whole product, with the middle term still to be added at the half limb. */
  ghost predicate Pending(s: seq<u32>, cross: seq<u32>, carry: int, h: nat, total: int) {
    |s| == 4 * h && 0 <= carry <= 1 && Val(s) + Pow(h) * (Val(cross) + Pow(2 * h) * carry) == total < Pow(4 * h)
  }

  /** With only its carry still to be added. */
  ghost predicate Nearly(s: seq<u32>, carry: int, h: nat, total: int) {
    |s| == 4 * h && 0 <= carry < B && Val(s) + Pow(3 * h) * carry == total < Pow(4 * h)
  }

  lemma BeforeMiddle(s: seq<u32>, cross: seq<u32>, carry: int, x: seq<u32>, y: seq<u32>, h: nat)
    requires |s| == 4 * h && Crossed(cross, carry, x, y, h)
    requires Val(s[..2 * h]) == Val(x[..h]) * Val(y[..h]) && Val(s[2 * h..]) == Val(x[h..]) * Val(y[h..])
    ensures |cross| == 2 * h && Pending(s, cross, carry, h, Val(x) * Val(y))
  {
    hide Val, Pow;
    ValSplit(s, 2 * h);
    Halves(x, y, h, Val(s[..2 * h]), Val(s[2 * h..]), Val(cross) + Pow(2 * h) * carry);
  }

  lemma NoCarryOut(v: int, p: int, t: int, total: int)
    requires p > 0 && 0 <= v && 0 <= t && v + p * t == total < p
    ensures t == 0 && v == total
  {
    MulLess(p, t, 1);
    assert p * 0 == 0;
  }

  lemma MiddleFits(s: seq<u32>, s1: seq<u32>, wide: int, cross: seq<u32>, carry: int, h: nat, total: int)
    requires |s| == |s1| == 4 * h && s[..h] == s1[..h] && Makes(s1[h..], wide, Val(s[h..]) + Val(cross)) && 0 <= wide
    requires Pending(s, cross, carry, h, total)
    ensures wide == 0 && 0 <= carry < B && Nearly(s1, carry, h, total)
  {
    hide Val, Pow;
    UpperAdd(s, s1, h, wide, Val(cross));
    WideSum(Val(s1), wide, Val(s), Val(cross), carry, Pow(h), Pow(2 * h), Pow(3 * h), Pow(4 * h), total) by {
      PowSum(h, 2 * h);
    }
  }

  lemma WideSum(v: int, wide: int, low: int, cross: int, carry: int, h: int, hh: int, hhh: int, p: int, total: int)
    requires 0 <= v && 0 <= wide && v + p * wide == low + h * cross && 0 <= carry && hhh == h * hh && hhh > 0 && p > 0
    requires low + h * (cross + hh * carry) == total < p
    ensures wide == 0 && v + hhh * carry == total
  {
    Distribute(h, cross, hh * carry);
    Regroup(h, hh, carry);
    LimbShift.MulAtMost(hhh, 0, carry);
    NoCarryOut(v, p, wide, v + p * wide);
  }

  lemma TopFits(s1: seq<u32>, s2: seq<u32>, top: int, carry: int, h: nat, total: int)
    requires |s1| == |s2| == 4 * h && s1[..3 * h] == s2[..3 * h]
    requires Makes(s2[3 * h..], top, Val(s1[3 * h..]) + carry) && 0 <= top
    requires Nearly(s1, carry, h, total)
    ensures Val(s2) == total
  {
    hide Val, Pow;
    UpperAdd(s1, s2, 3 * h, top, carry);
    NoCarryOut(Val(s2), Pow(4 * h), top, total);
  }

  /** product = x * y, for every limb count. */
  method Multiply(product: array<u32>, at: nat, x: seq<u32>, y: seq<u32>)
    requires |x| == |y| > 0 && at + 2 * |x| <= product.Length
    modifies product
    ensures Same(product[..], old(product[..]), at, at + 2 * |x|)
    ensures Val(product[at..at + 2 * |x|]) == Val(x) * Val(y)
    decreases |x|
  {
    hide Val, Pow, Crossed, Makes;
    var n := |x|;
    if n < 30 || n % 2 == 1 {
      SimpleMultiply(product, at, x, y);
      return;
    }
    var h := n / 2;
    Multiply(product, at, x[..h], y[..h]);
    ghost var low := product[at..at + n];
    Multiply(product, at + n, x[h..], y[h..]);
    assert product[at..at + n] == low;
    var cross, carry := Cross(x, y, product[at..at + n], product[at + n..at + 2 * n], h);
    AddMiddle(product, at, cross, carry, x, y, h);
  }

  /** The middle term, from the product of the half sums. */
  method Cross(x: seq<u32>, y: seq<u32>, low: seq<u32>, high: seq<u32>, h: nat) returns (cross: seq<u32>, carry: int)
    requires h > 0 && |x| == |y| == |low| == |high| == 2 * h
    requires Val(low) == Val(x[..h]) * Val(y[..h]) && Val(high) == Val(x[h..]) * Val(y[h..])
    ensures Crossed(cross, carry, x, y, h)
    decreases |x|, 0
  {
    hide Val, Pow, Crossed, Makes;
    var xsum := new u32[h];
    var xcarry := AddTo(xsum, 0, x[..h], x[h..]);
    var ysum := new u32[h];
    var ycarry := AddTo(ysum, 0, y[..h], y[h..]);
    assert xsum[..] == xsum[0..0 + h] && ysum[..] == ysum[0..0 + h] && x[..h][..h] == x[..h] && y[..h][..h] == y[..h];
    var buffer := new u32[2 * h];
    Multiply(buffer, 0, xsum[..], ysum[..]);
    assert buffer[..] == buffer[0..0 + 2 * h];
    carry := CrossProduct(buffer, x, y, xsum[..], xcarry, ysum[..], ycarry, low, high, h);
    cross := buffer[..];
  }
}
