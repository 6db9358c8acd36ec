/** The digits of the long division, one step after the other, as numbers (_attic_/BigInt.cpp:831-873): when they are
    the quotient's, and how they fail. */
module Quotients {
  import opened Limbs
  import opened LimbShift
  import opened Estimate

  lemma NormalTop(v: int, n: nat)
    requires n >= 2 && Normal(v, n, Pow(n - 1))
    ensures v >= Pow(n - 1) > 0 && v < Pow(n) <= 2 * v
  {
    MulAtMost(Pow(n - 1), 1, B / 2);
    assert Pow(n) == B * Pow(n - 1) == 2 * ((B / 2) * Pow(n - 1));
  }

  /** The ii lowest quotient limbs and the remainder, from what is left of the numerator in the n + ii lowest limbs.
      Each step divides the top n + 1 limbs and keeps n of them. */
  ghost function Run(x: int, v: int, n: nat, ii: nat): Step
    requires n >= 2 && Normal(v, n, Pow(n - 1))
    decreases ii
  {
    NormalTop(v, n);
    if ii == 0 then Step(0, x)
    else
      var p := Pow(ii - 1);
      var step := Digit(x / p, v, Pow(n - 1));
      var rest := Run(x % p + p * (step.rest % Pow(n)), v, n, ii - 1);
      Step(p * step.digit + rest.digit, rest.rest)
  }

  /** The highest limb is found by one comparison. */
  ghost function Divided(x: int, v: int, n: nat, qh: nat): Step
    requires n >= 2 && Normal(v, n, Pow(n - 1))
  {
    var top := if x / Pow(qh) >= v then 1 else 0;
    var rest := Run(x - Pow(qh) * (top * v), v, n, qh);
    Step(Pow(qh) * top + rest.digit, rest.rest)
  }

  // ---- Right for tame divisors ----

  lemma {:induction false} RunRight(x: int, v: int, n: nat, ii: nat)
    requires n >= 2 && Normal(v, n, Pow(n - 1)) && Tame(v, n) && 0 <= x < Pow(ii) * v
    ensures v > 0 && Run(x, v, n, ii) == Step(x / v, x % v)
    decreases ii
  {
    hide Normal, Tame, Digit, Pow;
    NormalTop(v, n);
    if ii == 0 {
      RunNone(x, v, n);
    } else {
      var p := Pow(ii - 1);
      var w := x / p;
      PowNext(ii - 1);
      WindowSmall(x, v, p);
      DigitRight(w, v, n, Pow(n - 1));
      DivMod(w, v);
      DivModIs(w % v, Pow(n), 0, w % v);
      LeftBelow(x % p, w % v, v, p);
      RunRight(x % p + p * (w % v), v, n, ii - 1);
      DigitsJoin(x, v, p, w);
    }
  }

  lemma RunNone(x: int, v: int, n: nat)
    requires n >= 2 && Normal(v, n, Pow(n - 1)) && v > 0 && 0 <= x < Pow(0) * v
    ensures Run(x, v, n, 0) == Step(x / v, x % v)
  {
    DivModIs(x, v, 0, x);
  }

  lemma PowNext(k: nat)
    ensures Pow(k + 1) == B * Pow(k)
  {}

  lemma WindowSmall(x: int, v: int, p: int)
    requires p > 0 && 0 <= x < (B * p) * v
    ensures 0 <= x / p < B * v && x == p * (x / p) + x % p && 0 <= x % p < p
  {
    DivMod(x, p);
    Regroup(p, B, v);
    Commute(p, B);
    MulLess(p, x / p, B * v);
    MulLess(p, -1, x / p);
  }

  lemma LeftBelow(low: int, r: int, v: int, p: int)
    requires 0 <= low < p && 0 <= r < v
    ensures 0 <= low + p * r < p * v
  {
    MulAtMost(p, r + 1, v);
    Distribute(p, r, 1);
    MulAtMost(p, 0, r);
  }

  lemma DigitsJoin(x: int, v: int, p: int, w: int)
    requires v > 0 && p > 0 && x == p * w + x % p
    ensures var y := x % p + p * (w % v); x / v == p * (w / v) + y / v && x % v == y % v
  {
    var y := x % p + p * (w % v);
    DivMod(w, v);
    DivMod(y, v);
    Distribute(p, v * (w / v), w % v);
    Rotate3(p, v, w / v);
    Distribute(v, p * (w / v), y / v);
    DivModIs(x, v, p * (w / v) + y / v, y % v);
  }

  lemma DividedRight(x: int, v: int, n: nat, qh: nat)
    requires n >= 2 && Normal(v, n, Pow(n - 1)) && Tame(v, n) && 0 <= x < Pow(qh) * Pow(n)
    ensures v > 0 && Divided(x, v, n, qh) == Step(x / v, x % v)
  {
    hide Normal, Tame, Pow, Run;
    NormalTop(v, n);
    var p := Pow(qh);
    var top := if x / p >= v then 1 else 0;
    DivMod(x, p);
    MulLess(p, x / p, Pow(n));
    LeftBelow(x % p, x / p - top * v, v, p);
    Distribute(p, x / p, -(top * v));
    assert p * -(top * v) == -(p * (top * v));
    RunRight(x - p * (top * v), v, n, qh);
    Rotate3(p, v, top);
    Commute(v, top);
    OffTop(x, v, p * top, x - p * (top * v));
  }

  lemma OffTop(x: int, v: int, q: int, y: int)
    requires v > 0 && y == x - v * q
    ensures x / v == q + y / v && x % v == y % v
  {
    DivMod(y, v);
    Distribute(v, q, y / v);
    DivModIs(x, v, q + y / v, y % v);
  }

  // ---- Wrong for any other ----

  /** The numerator that fails, with one or two limbs above the divisor's. */
  lemma DividedWrong(v: int, n: nat, qh: nat) returns (x: int)
    requires n >= 2 && Normal(v, n, Pow(n - 1)) && !Tame(v, n) && 1 <= qh <= 2
    ensures v > 0 && x == B * (Pow(n) - Pow(n - 2)) && Divided(x, v, n, qh).digit == 1 < x / v
  {
    hide Normal, Tame, Digit;
    NormalTop(v, n);
    x := DigitWrong(v, n, Pow(n - 1));
    var y := Pow(n) - Pow(n - 2);
    DigitZero(y, v, n, Pow(n - 1));
    assert Pow(0) == 1 && Pow(1) == B && Pow(2) == B * B;
    DivModIs(x, B, y, 0);
    DivModIs(y, Pow(n), 0, y);
    assert Run(x, v, n, 1).digit == 1;
    assert Run(x, v, n, 2).digit == 1;
    DivMod(x, B * B);
    Regroup(B, B, x / (B * B));
    assert x / (B * B) < v;
  }
}
