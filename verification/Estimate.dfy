/** The quotient estimate of the long division (_attic_/BigInt.cpp:841-869): what one step leaves in the quotient
    limb and in the window of the numerator, as numbers. */
module Estimate {
  import opened Limbs
  import opened LimbShift

  /** A step's quotient limb and remainder. */
  datatype Step = Step(digit: int, rest: int)

  /** The window's top two limbs over the divisor's top limb; z weighs the divisor's top limb. */
  function Guess(w: int, v: int, z: int): int
    requires z > 0 && v >= z
  {
    TopPositive(v, z);
    (w / z) / (v / z)
  }

  lemma TopPositive(v: int, z: int)
    requires z > 0 && v >= z
    ensures v / z > 0
  {
    DivMod(v, z);
    if v / z < 1 {
      MulAtMost(z, v / z, 0);
    }
  }

  /** The product as the buffer holds it, one limb longer than the divisor. */
  function Stored(g: int, v: int, z: int): int
    requires z > 0
  {
    (g * v) % (B * (B * z))
  }

  /** Subtract the product; while that has borrowed, take one off the limb and add the divisor back, twice at most. What
      the window holds then is taken modulo its size. */
  function Digit(w: int, v: int, z: int): Step
    requires z > 0 && v >= z
  {
    var g := Guess(w, v, z);
    var d := w - Stored(g, v, z);
    if d >= 0 then Step(g % B, d) else if d + v >= 0 then Step((g - 1) % B, d + v)
    else Step((g - 2) % B, (d + 2 * v) % (B * (B * z)))
  }

  /** A divisor of n limbs with its top bit set, and z the weight of its top limb. */
  ghost predicate Normal(v: int, n: nat, z: int) {
    n >= 2 && z == Pow(n - 1) && (B / 2) * z <= v < B * z
  }

  /** Not all 64 top bits are set with anything below them. */
  predicate Tame(v: int, n: nat)
    requires n >= 2
  {
    v <= Pow(n) - Pow(n - 2)
  }

  /** Whatever the window holds, the estimate is one limb and at most one bit. */
  lemma GuessSmall(w: int, v: int, n: nat, z: int)
    requires Normal(v, n, z) && 0 <= w < B * (B * z)
    ensures v >= z > 0 && 0 <= Guess(w, v, z) < 2 * B
  {
    DivMod(v, z);
    DivMod(w, z);
    TopLimb(v, z, v / z, v % z);
    var h, t := w / z, v / z;
    Rotate3(z, B, B);
    Rotate3(B, B, z);
    MulLess(z, h, B * B);
    MulLess(z, -1, h);
    DivMod(h, t);
    MulAtMost(B, B / 2, t);
    assert t * (2 * B) == 2 * (B * t);
    MulLess(t, h / t, 2 * B);
    MulLess(t, -1, h / t);
  }

  /** The estimate is at most two too big, and never too small. */
  lemma AtMostTwoTooBig(w: int, v: int, n: nat, z: int)
    requires Normal(v, n, z) && 0 <= w < B * v
    ensures v >= z > 0 && 0 <= Guess(w, v, z) <= B + 1
    ensures -2 * v <= w - Guess(w, v, z) * v < v
  {
    TopPositive(v, z);
    DivMod(v, z);
    DivMod(w, z);
    DivMod(w / z, v / z);
    TopLimb(v, z, v / z, v % z);
    GuessRange(w, v, z, v / z, v % z, w / z, w % z, Guess(w, v, z), (w / z) % (v / z));
  }

  lemma GuessRange(w: int, v: int, z: int, t: int, y: int, h: int, l: int, g: int, r: int)
    requires z > 0 && v == z * t + y && 0 <= y < z && w == z * h + l && 0 <= l < z && B / 2 <= t && 0 <= w < B * v
    requires h == t * g + r && 0 <= r < t
    ensures 0 <= g <= B + 1 && -2 * v <= w - g * v < v
  {
    GuessBound(w, v, z, t, y, h, l, g, r);
    NotTooSmall(w, v, z, t, y, h, l, g, r);
    NotTooBig(w, v, z, t, y, h, l, g, r);
  }

  lemma TopLimb(v: int, z: int, t: int, y: int)
    requires z > 0 && v == z * t + y && 0 <= y < z && (B / 2) * z <= v < B * z
    ensures B / 2 <= t < B
  {
    MulLess(z, t, B);
    MulLess(z, B / 2 - 1, t);
    assert z * (B / 2 - 1) == (B / 2) * z - z;
  }

  lemma GuessBound(w: int, v: int, z: int, t: int, y: int, h: int, l: int, g: int, r: int)
    requires z > 0 && v == z * t + y && 0 <= y < z && w == z * h + l && 0 <= l < z && B / 2 <= t && 0 <= w < B * v
    requires h == t * g + r && 0 <= r < t
    ensures 0 <= g <= B + 1
  {
    MulLess(z, h, B * (t + 1));
    Rotate3(z, B, t + 1);
    Distribute(z, t, 1);
    MulLess(z, -1, h);
    MulLess(t, g, B + 2);
    MulLess(t, -1, g);
    assert t * (B + 2) == B * t + 2 * t;
  }

  lemma Rotate3(x: int, y: int, z: int)
    ensures x * (y * z) == y * (x * z)
  {}

  lemma Triple(z: int, t: int, g: int)
    ensures z * (t * g) == g * (z * t)
  {}

  lemma NotTooSmall(w: int, v: int, z: int, t: int, y: int, h: int, l: int, g: int, r: int)
    requires z > 0 && v == z * t + y && 0 <= y && w == z * h + l && l < z && t > 0 && h == t * g + r && r < t && g >= 0
    ensures w - g * v < v
  {
    MulAtMost(z, h + 1, t * (g + 1));
    Distribute(z, h, 1);
    Distribute(t, g, 1);
    Triple(z, t, g + 1);
    Distribute(g + 1, z * t, y);
    MulAtMost(g + 1, 0, y);
    Distribute(v, g, 1);
  }

  lemma NotTooBig(w: int, v: int, z: int, t: int, y: int, h: int, l: int, g: int, r: int)
    requires z > 0 && v == z * t + y && 0 <= y < z && w == z * h + l && 0 <= l && B / 2 <= t && 0 <= g <= B + 1
    requires h == t * g + r && 0 <= r
    ensures w - g * v >= -2 * v
  {
    MulAtMost(z, t * g, h);
    Triple(z, t, g);
    Distribute(g, z * t, y);
    MulAtMost(y, g, B + 1);
    MulAtMost(z, B / 2, t);
    TwoTerms(w, z * t, y, z, g * (z * t), g * y);
  }

  lemma TwoTerms(w: int, a: int, y: int, z: int, ga: int, gy: int)
    requires ga <= w && gy <= (B + 1) * y && (B / 2) * z <= a && y < z && z > 0
    ensures w - (ga + gy) >= -2 * (a + y)
  {}

  /** For a tame divisor the product fits its buffer. */
  lemma ProductFits(w: int, v: int, n: nat, z: int)
    requires Normal(v, n, z) && 0 <= w < B * v && Tame(v, n)
    ensures v >= z > 0 && 0 <= Guess(w, v, z) * v < B * (B * z)
  {
    AtMostTwoTooBig(w, v, n, z);
    var g, u := Guess(w, v, z), Pow(n - 2);
    MulAtMost(v, 0, g);
    Commute(v, g);
    PowTwoDown(n);
    if g <= B {
      MulAtMost(v, g, B);
    } else {
      TopPositive(v, z);
      DivMod(v, z);
      DivMod(w, z);
      DivMod(w / z, v / z);
      Full(w, v, u, z, v / z, v % z, w / z, w % z, (w / z) % (v / z));
    }
  }

  lemma PowTwoDown(n: nat)
    requires n >= 2
    ensures Pow(n - 1) == B * Pow(n - 2) && Pow(n) == B * (B * Pow(n - 2))
  {}

  /** A guess of B + 1: the divisor's second limb is no smaller than its first. */
  lemma Full(w: int, v: int, u: int, z: int, t: int, y: int, h: int, l: int, r: int)
    requires u > 0 && z == B * u && v == z * t + y && 0 <= y < z && w == z * h + l && 0 <= l && 0 < t
    requires w < B * v && h == t * (B + 1) + r && 0 <= r && v <= B * (B * u) - u
    ensures (B + 1) * v < B * (B * z)
  {
    MulAtMost(z, t * (B + 1), h);
    Triple(z, t, B + 1);
    assert z * t < B * y;
    Regroup(B, u, t);
    assert u * t < y && v == B * (u * t) + y;
    assert u * t < u * (B - 1);
    MulLess(u, t, B - 1);
    MulAtMost(z, t + 1, B - 1);
    Distribute(z, t, 1);
  }

  /** So then a step is right. */
  lemma DigitRight(w: int, v: int, n: nat, z: int)
    requires Normal(v, n, z) && 0 <= w < B * v && Tame(v, n)
    ensures v >= z > 0 && Digit(w, v, z) == Step(w / v, w % v) && 0 <= w / v < B
  {
    hide Guess, Stored, Pow, Tame;
    AtMostTwoTooBig(w, v, n, z);
    ProductFits(w, v, n, z);
    var g := Guess(w, v, z);
    StoredWhole(g, v, z);
    LimbQuotient(w, v);
    FitsWindow(w - g * v + 2 * v, v, z);
    Corrected(w, v, g, if w - g * v >= 0 then 0 else if w - g * v + v >= 0 then 1 else 2);
  }

  lemma StoredWhole(g: int, v: int, z: int)
    requires z > 0 && 0 <= g * v < B * (B * z)
    ensures Stored(g, v, z) == g * v
  {
    DivModIs(g * v, B * (B * z), 0, g * v);
  }

  lemma FitsWindow(x: int, v: int, z: int)
    requires z > 0 && v < B * z
    ensures 0 <= x < v ==> x % (B * (B * z)) == x
  {
    if 0 <= x < v {
      DivModIs(x, B * (B * z), 0, x);
    }
  }

  lemma Corrected(w: int, v: int, g: int, k: int)
    requires v > 0 && 0 <= w - g * v + k * v < v
    ensures w / v == g - k && w % v == w - g * v + k * v
  {
    Distribute(v, g, -k);
    Commute(v, g);
    Commute(v, k);
    assert v * -k == -(v * k);
    DivModIs(w, v, g - k, w - g * v + k * v);
  }

  lemma LimbQuotient(w: int, v: int)
    requires v > 0 && 0 <= w < B * v
    ensures 0 <= w / v < B
  {
    DivMod(w, v);
    MulLess(v, w / v, B);
    MulLess(v, -1, w / v);
    assert v * B == B * v;
  }

  /** And for any other divisor some window goes wrong: the product of a guess of B + 1 loses its top bit. */
  lemma DigitWrong(v: int, n: nat, z: int) returns (w: int)
    requires Normal(v, n, z) && !Tame(v, n)
    ensures v >= z > 0 && w == B * (Pow(n) - Pow(n - 2)) && 0 <= w < B * v && Digit(w, v, z).digit == 1 < w / v
  {
    var u := Pow(n - 2);
    assert z == B * u && Pow(n) == B * (B * u);
    w := B * (B * (B * u) - u);
    assert v > B * (B * u) - u && v < B * (B * u);
    WrongGuess(w, v, u, z);
    DivModIs((B + 1) * v, B * (B * z), 1, (B + 1) * v - B * (B * z));
    DivMod(w, v);
    MulLess(v, 1, w / v);
  }

  /** The window one limb up from there is smaller than the divisor, and stays as it is. */
  lemma DigitZero(w: int, v: int, n: nat, z: int)
    requires Normal(v, n, z) && !Tame(v, n) && w == Pow(n) - Pow(n - 2)
    ensures v >= z > 0 && 0 <= w < v && Digit(w, v, z) == Step(0, w)
  {
    var u := Pow(n - 2);
    assert z == B * u && Pow(n) == B * (B * u);
    DivModIs(v, z, B - 1, v - z * (B - 1));
    DivModIs(w, z, B - 1, w - z * (B - 1));
    DivModIs(B - 1, B - 1, 1, 0);
    DivModIs(v, B * (B * z), 0, v);
  }

  lemma WrongGuess(w: int, v: int, u: int, z: int)
    requires u > 0 && z == B * u && w == B * (B * (B * u) - u) && B * (B * u) - u < v < B * (B * u)
    ensures v >= z > 0 && Guess(w, v, z) == B + 1
  {
    DivModIs(v, z, B - 1, v - z * (B - 1));
    DivModIs(w, z, B * B - 1, 0);
    DivModIs(B * B - 1, B - 1, B + 1, 0);
  }

  /** A step is right for every window exactly when the divisor is tame. */
  lemma DigitRightIff(v: int, n: nat, z: int)
    requires Normal(v, n, z)
    ensures v >= z > 0
    ensures (forall w :: 0 <= w < B * v ==> Digit(w, v, z) == Step(w / v, w % v)) <==> Tame(v, n)
  {
    assert v >= z > 0;
    if Tame(v, n) {
      forall w | 0 <= w < B * v ensures Digit(w, v, z) == Step(w / v, w % v) {
        DigitRight(w, v, n, z);
      }
    } else {
      var w := DigitWrong(v, n, z);
      assert Digit(w, v, z) != Step(w / v, w % v);
    }
  }
}
