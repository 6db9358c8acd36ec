/** Congruences, and the inverse of a power of two modulo an odd number. */
module Modular {
  import opened Limbs
  import opened LimbShift

  predicate Cong(x: int, y: int, m: int)
    requires m > 0
  {
    (x - y) % m == 0
  }

  lemma CongBy(x: int, y: int, m: int, k: int)
    requires m > 0 && x == y + m * k
    ensures Cong(x, y, m)
  {
    DivModIs(x - y, m, k, 0);
  }

  /** What is between two congruent numbers, in moduli. */
  function Gap(x: int, y: int, m: int): (k: int)
    requires m > 0 && Cong(x, y, m)
    ensures x == y + m * k
  {
    DivMod(x - y, m);
    (x - y) / m
  }

  lemma CongTrans(x: int, y: int, z: int, m: int)
    requires m > 0 && Cong(x, y, m) && Cong(y, z, m)
    ensures Cong(x, z, m)
  {
    Distribute(m, Gap(x, y, m), Gap(y, z, m));
    CongBy(x, z, m, Gap(x, y, m) + Gap(y, z, m));
  }

  lemma CongSym(x: int, y: int, m: int)
    requires m > 0 && Cong(x, y, m)
    ensures Cong(y, x, m)
  {
    var k := Gap(x, y, m);
    assert m * -k == -(m * k);
    CongBy(y, x, m, -k);
  }

  lemma CongTimes(x: int, y: int, c: int, m: int)
    requires m > 0 && Cong(x, y, m)
    ensures Cong(x * c, y * c, m) && Cong(c * x, c * y, m)
  {
    var k := Gap(x, y, m);
    Distribute(c, y, m * k);
    Regroup(m, k, c);
    Commute(m * k, c);
    CongBy(x * c, y * c, m, k * c);
  }

  lemma CongProduct(x: int, y: int, x': int, y': int, m: int)
    requires m > 0 && Cong(x, x', m) && Cong(y, y', m)
    ensures Cong(x * y, x' * y', m)
  {
    CongTimes(x, x', y, m);
    CongTimes(y, y', x', m);
    CongTrans(x * y, x' * y, x' * y', m);
  }

  lemma CongMod(x: int, m: int)
    requires m > 0
    ensures Cong(x, x % m, m) && Cong(x % m, x, m)
  {
    DivMod(x, m);
    CongBy(x, x % m, m, x / m);
    CongSym(x, x % m, m);
  }

  /** Congruent numbers have the same remainder. */
  lemma SameMod(x: int, y: int, m: int)
    requires m > 0
    ensures Cong(x, y, m) <==> x % m == y % m
  {
    DivMod(x, m);
    DivMod(y, m);
    if Cong(x, y, m) {
      var k := Gap(x, y, m);
      Distribute(m, y / m, k);
      DivModIs(x, m, y / m + k, y % m);
    } else if x % m == y % m {
      Distribute(m, x / m, -(y / m));
      assert m * -(y / m) == -(m * (y / m));
      CongBy(x, y, m, x / m - y / m);
    }
  }

  function Power(b: int, e: nat): int {
    if e == 0 then 1 else b * Power(b, e - 1)
  }

  lemma {:induction false} PowerSum(b: int, e: nat, f: nat)
    ensures Power(b, e + f) == Power(b, e) * Power(b, f)
  {
    if e > 0 {
      PowerSum(b, e - 1, f);
      Regroup(b, Power(b, e - 1), Power(b, f));
    }
  }

  lemma {:induction false} PowTwos(n: nat)
    ensures Pow(n) == Two(32 * n)
  {
    if n > 0 {
      PowTwos(n - 1);
      Two32();
      TwoSum(32, 32 * (n - 1));
    }
  }

  /** Half the successor of an odd number inverts 2; its powers invert the powers of 2. */
  lemma {:induction false} HalvesInvert(m: int, k: nat)
    requires m > 0 && m % 2 == 1
    ensures Cong(Two(k) * Power((m + 1) / 2, k), 1, m)
  {
    var h := (m + 1) / 2;
    if k == 0 {
      CongBy(1, 1, m, 0);
    } else {
      HalvesInvert(m, k - 1);
      var p, w := Two(k - 1), Power(h, k - 1);
      assert (2 * p) * (h * w) == (m + 1) * (p * w) by { Interleave(p, h, w); }
      CongTimes(p * w, 1, m + 1, m);
      CongBy(m + 1, 1, m, 1);
      CongTrans((m + 1) * (p * w), m + 1, 1, m);
    }
  }

  lemma Interleave(p: int, h: int, w: int)
    ensures (2 * p) * (h * w) == (2 * h) * (p * w)
  {
    Regroup(p, h, w);
    Regroup(h, p, w);
    Commute(p, h);
  }

  /** The inverse of R = B to the n, modulo m. */
  function Inverse(m: int, n: nat): int {
    Power((m + 1) / 2, 32 * n)
  }

  lemma InverseIs(m: int, n: nat)
    requires m > 0 && m % 2 == 1
    ensures Cong(Pow(n) * Inverse(m, n), 1, m)
  {
    PowTwos(n);
    HalvesInvert(m, 32 * n);
  }

  /** What a number stands for in the Montgomery domain of m: it over R. */
  function Mean(x: int, m: int, n: nat): (r: int)
    requires m > 0
    ensures 0 <= r < m
  {
    (x * Inverse(m, n)) % m
  }

  /** Congruent to s over R. */
  lemma OverR(x: int, s: int, m: int, n: nat)
    requires m > 0 && m % 2 == 1 && Cong(x * Pow(n), s, m)
    ensures Cong(x, s * Inverse(m, n), m)
  {
    var p, i := Pow(n), Inverse(m, n);
    InverseIs(m, n);
    CongTimes(p * i, 1, x, m);
    Regroup(x, p, i);
    CongTimes(x * p, s, i, m);
    CongSym(x * (p * i), x * 1, m);
    CongTrans(x, x * p * i, s * i, m);
  }

  /** Reducing a product multiplies what the factors stand for. */
  lemma MeanProduct(x: int, a: int, b: int, m: int, n: nat)
    requires m > 0 && m % 2 == 1 && Cong(x * Pow(n), a * b, m)
    ensures Mean(x, m, n) == (Mean(a, m, n) * Mean(b, m, n)) % m
  {
    var i := Inverse(m, n);
    OverR(x, a * b, m, n);
    CongTimes(x, (a * b) * i, i, m);
    Shuffled(a, b, i);
    CongMod(a * i, m);
    CongMod(b * i, m);
    CongProduct(a * i, b * i, Mean(a, m, n), Mean(b, m, n), m);
    CongTrans(x * i, (a * i) * (b * i), Mean(a, m, n) * Mean(b, m, n), m);
    SameMod(x * i, Mean(a, m, n) * Mean(b, m, n), m);
  }

  lemma Shuffled(a: int, b: int, i: int)
    ensures (a * b) * i * i == (a * i) * (b * i)
  {
    Regroup(a, b, i);
    Regroup(a * i, b, i);
    Regroup(a, i, b * i);
    Commute(i, b * i);
    Regroup(a, b * i, i);
  }

  /** A number times R stands for itself. */
  lemma MeanOfResidue(x: int, b: int, m: int, n: nat)
    requires m > 0 && m % 2 == 1 && Cong(x, b * Pow(n), m)
    ensures Mean(x, m, n) == b % m
  {
    var p, i := Pow(n), Inverse(m, n);
    CongTimes(x, b * p, i, m);
    Regroup(b, p, i);
    InverseIs(m, n);
    CongTimes(p * i, 1, b, m);
    CongTrans(x * i, b * (p * i), b, m);
    SameMod(x * i, b, m);
  }

  /** Out of the domain: what is below m and congruent to s over R is what s stands for. */
  lemma MeanOfFinished(x: int, s: int, m: int, n: nat)
    requires m > 0 && m % 2 == 1 && Cong(x * Pow(n), s, m) && 0 <= x < m
    ensures x == Mean(s, m, n)
  {
    OverR(x, s, m, n);
    SameMod(x, s * Inverse(m, n), m);
    DivModIs(x, m, 0, x);
  }
}
