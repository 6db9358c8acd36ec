/** The inverse of a limb, and Montgomery reduction (_attic_/BigInt.cpp). */
module Montgomery {
  import opened Limbs
  import opened LimbShift
  import opened LimbProduct
  import opened Modular

  // ---- The inverse of a limb ----

  ghost predicate Common(d: int, x: int, y: int) {
    d > 0 && x % d == 0 && y % d == 0
  }

  /** What divides the remainders divides what they are remainders of. */
  lemma CommonBack(d: int, x: int, y: int)
    requires y > 0 && Common(d, x % y, y)
    ensures Common(d, x, y)
  {
    DivMod(x, y);
    DivMod(y, d);
    DivMod(x % y, d);
    Regroup(d, y / d, x / y);
    Commute(y, x / y);
    Commute(y / d, x / y);
    Distribute(d, (y / d) * (x / y), (x % y) / d);
    DivModIs(x, d, (y / d) * (x / y) + (x % y) / d, 0);
  }

  /** An odd divisor of a power of 2 is 1. */
  lemma {:induction false} OddDivisor(d: int, k: nat)
    requires d > 0 && d % 2 == 1 && Two(k) % d == 0
    ensures d == 1
  {
    DivMod(Two(k), d);
    var j := Two(k) / d;
    if k == 0 {
      MulLess(d, 0, j);
      MulAtMost(d, 1, j);
    } else {
      OddTimes(d, j);
      assert d * j == 2 * (d * (j / 2)) by { Rotate(d, 2, j / 2); Commute(j / 2, d); }
      DivModIs(Two(k - 1), d, j / 2, 0);
      OddDivisor(d, k - 1);
    }
  }

  lemma OddTimes(d: int, j: int)
    requires d % 2 == 1 && (d * j) % 2 == 0
    ensures j == 2 * (j / 2)
  {
    OddSplit(d / 2, j);
    Parity(d * j, (d / 2) * j, j);
  }

  lemma OddSplit(a: int, j: int)
    ensures (2 * a + 1) * j == 2 * (a * j) + j
  {
    Regroup(2, a, j);
    Distribute(j, 2 * a, 1);
  }

  lemma Parity(x: int, y: int, j: int)
    requires x == 2 * y + j && x % 2 == 0
    ensures j == 2 * (j / 2)
  {
  }

  lemma OddPart(d: int, x: int)
    requires d > 0 && x % 2 == 1 && x % d == 0
    ensures d % 2 == 1
  {
    DivMod(x, d);
    if d % 2 == 0 {
      var j := x / d;
      Commute(d, j);
      Rotate(j, 2, d / 2);
    }
  }

  /** The numbers the limb inverse starts from: 2^32 divided by n, the quotient negated. */
  lemma FirstStep(n: u32, hb: int, u1: int, g1: int)
    requires n > 0 && hb == (if n as int - 1 < 0x8000_0000 then 1 else 0)
    requires u1 == (-((B - 1) / n + hb)) % B && g1 == ((if hb == 1 then (B - 1) % n + 1 else 0) - n) % B
    ensures Cong(u1 * n, g1, B) && 0 <= g1 < B
    ensures n % 2 == 1 ==> (g1 == 0 ==> n == 1) && forall d :: Common(d, n, g1) ==> d == 1
  {
    var q, r := (B - 1) / n, (B - 1) % n;
    DivMod(B - 1, n);
    MulLess(n, q, 2);
    MulLess(n, 0, q);
    var k := q + hb;
    Distribute(n, q, 1);
    var c := if hb == 1 && B - n * k < 0 then 2 else 1;
    assert hb == 0 ==> k == 1 && n * k == n;
    assert g1 == c * B - n * k;
    FirstCong(n, k, u1, g1, c);
    if n % 2 == 1 {
      FirstOdd(n, k, g1, c);
    }
  }

  lemma FirstCong(n: int, k: int, u1: int, g1: int, c: int)
    requires u1 == (-k) % B && g1 == c * B - n * k
    ensures Cong(u1 * n, g1, B)
  {
    CongMod(-k, B);
    CongTimes(u1, -k, n, B);
    assert -k * n == -(n * k);
    CongBy(-(n * k), g1, B, -c);
    CongTrans(u1 * n, -(n * k), g1, B);
  }

  lemma FirstOdd(n: int, k: int, g1: int, c: int)
    requires n > 0 && n % 2 == 1 && g1 == c * B - n * k && 1 <= c <= 2
    ensures g1 == 0 ==> n == 1
    ensures forall d :: Common(d, n, g1) ==> d == 1
  {
    Two32();
    assert Two(33) == 2 * Two(32);
    forall d | Common(d, n, g1) ensures d == 1 {
      OddPart(d, n);
      DividesTwice(d, n, k, g1, c);
      OddDivisor(d, 33);
    }
    if g1 == 0 {
      DivModIs(n, n, 1, 0);
      DivModIs(0, n, 0, 0);
      assert Common(n, n, g1);
    }
  }

  lemma DividesTwice(d: int, n: int, k: int, g1: int, c: int)
    requires Common(d, n, g1) && g1 == c * B - n * k && 1 <= c <= 2
    ensures (2 * B) % d == 0
  {
    DivMod(n, d);
    DivMod(g1, d);
    Regroup(d, n / d, k);
    var j := g1 / d + (n / d) * k;
    Distribute(d, g1 / d, (n / d) * k);
    assert d * j == c * B;
    DivModIs(2 * B, d, if c == 1 then 2 * j else j, 0) by {
      assert d * (2 * j) == 2 * (d * j);
    }
  }

  /** The state of the wrapping Euclid: each remainder is its coefficient times n, modulo 2^32. */
  ghost predicate Euclid(n: int, g10: int, u: int, g: int, u1: int, g1: int) {
    && Cong(u * n, g, B) && Cong(u1 * n, g1, B)
    && forall d :: Common(d, g, g1) ==> Common(d, n, g10)
  }

  lemma EuclidStep(n: int, g10: int, u: int, g: int, u1: int, g1: int)
    requires Euclid(n, g10, u, g, u1, g1) && g1 > 0
    ensures Euclid(n, g10, (u - (g / g1) * u1) % B, g % g1, u1, g1)
  {
    var q := g / g1;
    DivMod(g, g1);
    Commute(g1, q);
    CongMod(u - q * u1, B);
    CongTimes((u - q * u1) % B, u - q * u1, n, B);
    var a, b := Gap(u * n, g, B), Gap(u1 * n, g1, B);
    EuclidSum(n, u, g, u1, g1, q, a, b);
    CongBy((u - q * u1) * n, g % g1, B, a - q * b);
    CongTrans(((u - q * u1) % B) * n, (u - q * u1) * n, g % g1, B);
    forall d | Common(d, g % g1, g1) ensures Common(d, n, g10) {
      CommonBack(d, g, g1);
    }
  }

  lemma EuclidSum(n: int, u: int, g: int, u1: int, g1: int, q: int, a: int, b: int)
    requires u * n == g + B * a && u1 * n == g1 + B * b
    ensures (u - q * u1) * n == g - q * g1 + B * (a - q * b)
  {
    Distribute(n, u, -(q * u1));
    Regroup(q, u1, n);
    assert n * -(q * u1) == -((q * u1) * n);
    Distribute(q, g1, B * b);
    Rotate3(q, B, b);
    Commute(n, u);
  }

  lemma Rotate3(x: int, y: int, z: int)
    ensures x * (y * z) == y * (x * z)
  {}

  lemma EuclidSwap(n: int, g10: int, u: int, g: int, u1: int, g1: int)
    requires Euclid(n, g10, u, g, u1, g1)
    ensures Euclid(n, g10, u1, g1, u, g)
  {
    forall d | Common(d, g1, g) ensures Common(d, n, g10) {
      assert Common(d, g, g1);
    }
  }

  /** At the end the last remainder is 1 exactly when n is odd, and its coefficient then is the inverse. */
  lemma EuclidEnd(n: int, g10: int, g: int, u1: int, g1: int, u: int)
    requires Euclid(n, g10, u, g, u1, g1) && g == 0 && g1 > 0
    requires n % 2 == 1 ==> forall d :: Common(d, n, g10) ==> d == 1
    ensures g1 == 1 <==> n % 2 == 1
    ensures n % 2 == 1 ==> Cong(u1 * n, 1, B)
  {
    if n % 2 == 1 {
      DivModIs(0, g1, 0, 0);
      DivModIs(g1, g1, 1, 0);
      assert Common(g1, g, g1);
    } else {
      var k := Gap(u1 * n, g1, B);
      assert u1 * n == 2 * (u1 * (n / 2)) by { Rotate3(u1, 2, n / 2); }
      assert g1 == 2 * (u1 * (n / 2) - (B / 2) * k);
    }
  }

  /** The inverse of n modulo 2^32, or 0 if there is none, by Euclid on wrapping words. */
  method MulInverse32(n: u32) returns (inv: u32)
    requires n > 0
    ensures n % 2 == 1 ==> Cong(inv * n, 1, B)
    ensures n % 2 == 0 ==> inv == 0
  {
    hide Cong, Euclid, Common;
    var hb := if n as int - 1 < 0x8000_0000 then 1 else 0;
    var u1: int := (-((B - 1) / n + hb)) % B;
    var g1: int := ((if hb == 1 then (B - 1) % n + 1 else 0) - n) % B;
    FirstStep(n, hb, u1, g1);
    if g1 == 0 {
      OneInverts();
      return if n != 1 then 0 else 1;
    }
    ghost var g10 := g1;
    var u, g: int := 1, n;
    EuclidStart(n, u1, g1);
    while true
      invariant 0 <= u < B && 0 <= u1 < B && 0 <= g && g1 > 0 && Euclid(n, g10, u, g, u1, g1)
      decreases g1
    {
      var q := g / g1;
      EuclidStep(n, g10, u, g, u1, g1);
      u := (u - q * u1) % B;
      g := g % g1;
      if g == 0 {
        EuclidEnd(n, g10, g, u1, g1, u);
        return if g1 != 1 then 0 else u1;
      }
      EuclidSwap(n, g10, u, g, u1, g1);
      q := g1 / g;
      EuclidStep(n, g10, u1, g1, u, g);
      u1 := (u1 - q * u) % B;
      g1 := g1 % g;
      if g1 == 0 {
        EuclidEnd(n, g10, g1, u, g, u1);
        return if g != 1 then 0 else u;
      }
      EuclidSwap(n, g10, u1, g1, u, g);
    }
  }

  lemma OneInverts()
    ensures Cong(1 * 1, 1, B)
  {}

  lemma EuclidStart(n: int, u1: int, g1: int)
    requires Cong(u1 * n, g1, B)
    ensures Euclid(n, g1, 1, n, u1, g1)
  {
    CongBy(1 * n, n, B, 0);
  }
}
