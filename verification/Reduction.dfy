/** Montgomery reduction of multi-precision numbers (_attic_/BigInt.cpp:1431-1435, 1486-1526). */
module Reduction {
  import opened Limbs
  import opened LimbSum
  import opened LimbShift
  import opened LimbProduct
  import opened Division
  import opened Modular
  import opened Montgomery

  /** modInv is minus the inverse of the odd modulus's lowest limb. */
  predicate Prepared(modulus: seq<u32>, modInv: u32) {
    |modulus| > 0 && modulus[0] % 2 == 1 && (modInv as int * modulus[0] + 1) % B == 0
  }

  method MonReducePrecomp(modulus0: u32) returns (modInv: u32)
    requires modulus0 % 2 == 1
    ensures (modInv as int * modulus0 + 1) % B == 0
  {
    modInv := MulInverse32((-(modulus0 as int)) % B);
    NegatedInverse(modInv, modulus0);
  }

  lemma NegatedInverse(i: u32, m: u32)
    requires m > 0 && Cong(i as int * (B - m), 1, B)
    ensures (i as int * m + 1) % B == 0
  {
    Distribute(i, B, -(m as int));
    assert i as int * -(m as int) == -(i as int * m);
    var k := Gap(i as int * (B - m), 1, B);
    Commute(i, B);
    DivModIs(i as int * m + 1, B, i - k, 0);
  }

  lemma OddModulus(modulus: seq<u32>)
    requires |modulus| > 0 && modulus[0] % 2 == 1
    ensures Val(modulus) % 2 == 1 && Val(modulus) > 0
  {}

  /** After ii rows: q times the modulus has been added; the low limbs hold the saved carries, worth B to the n each. */
  ghost predicate Reducing(now: seq<u32>, was: seq<u32>, at: nat, n: nat, m: int, ii: nat, q: int) {
    && at + 2 * n <= |was| && ii <= n && Same(now, was, at, at + 2 * n) && 0 <= q < Pow(ii)
    && RowsSum(Val(was[at..at + 2 * n]), m, q, Pow(ii), Val(now[at + ii..at + 2 * n]), Pow(n), Val(now[at..at + ii]))
  }

  ghost predicate RowsSum(s: int, m: int, q: int, p: int, high: int, r: int, low: int) {
    s + m * q == p * high + r * low
  }

  ghost predicate RowShifted(high: int, high': int, v: int, r: int, c: int) {
    B * high' == high + v - r * c
  }

  lemma ReducingStart(was: seq<u32>, at: nat, n: nat, m: int)
    requires at + 2 * n <= |was|
    ensures Reducing(was, was, at, n, m, 0, 0)
  {
    assert was[at..at + 0] == [] && Pow(0) == 1;
    assert m * 0 == 0 && Pow(n) * 0 == 0;
  }

  /** The row's quotient limb clears the lowest limb. */
  lemma LowLimbClears(t: seq<u32>, t': seq<u32>, modulus: seq<u32>, modInv: u32, q: u32, c: u32)
    requires |t| == |t'| == |modulus| && Prepared(modulus, modInv) && q == (t[0] as int * modInv) % B
    requires Makes(t', c, Val(t) + q * Val(modulus))
    ensures t'[0] == 0
  {
    hide Val, Pow, Makes;
    LowLimb(t);
    LowLimb(t');
    LowLimb(modulus);
    MakesLow(t', c, Val(t) + q * Val(modulus));
    var m0, k := modulus[0], Gap(modInv as int * modulus[0] + 1, 0, B);
    CongMod(t[0] as int * modInv, B);
    CongTimes(q, t[0] as int * modInv, m0, B);
    Regroup(t[0], modInv, m0);
    Distribute(t[0], modInv as int * m0, 1);
    Rotate3(t[0], B, k);
    var a := Gap(q as int * m0, t[0] as int * modInv * m0, B);
    CongBy(Val(modulus), m0, B, Val(modulus[1..]));
    CongTimes(Val(modulus), m0, q, B);
    var b := Gap(q * Val(modulus), q as int * m0, B);
    CongBy(Val(t) + q * Val(modulus), 0, B, Val(t[1..]) + a + b + t[0] * k);
    SameMod(Val(t) + q * Val(modulus), 0, B);
    DivModIs(Val(t'), B, Val(t'[1..]), t'[0]);
  }

  lemma LowLimb(s: seq<u32>)
    requires |s| > 0
    ensures Val(s) == s[0] + B * Val(s[1..])
  {}

  /** The carry does not show in the lowest limb. */
  lemma MakesLow(s: seq<u32>, c: int, v: int)
    requires |s| > 0 && Makes(s, c, v)
    ensures Val(s) % B == v % B
  {
    Regroup(B, Pow(|s| - 1), c);
    CongBy(v, Val(s), B, Pow(|s| - 1) * c);
    SameMod(v, Val(s), B);
  }

  lemma ReducingStep(now: seq<u32>, s1: seq<u32>, s2: seq<u32>, was: seq<u32>, at: nat, n: nat, modulus: seq<u32>,
                     ii: nat, q: int, d: u32, c: u32)
    requires n == |modulus| && ii < n && Reducing(now, was, at, n, Val(modulus), ii, q)
    requires Same(s1, now, at + ii, at + ii + n) && s2 == s1[at + ii := c] && s1[at + ii] == 0
    requires Makes(s1[at + ii..at + ii + n], c, Val(now[at + ii..at + ii + n]) + d * Val(modulus))
    ensures Reducing(s2, was, at, n, Val(modulus), ii + 1, q + Pow(ii) * d)
  {
    hide Val, Pow, Makes, RowsSum, RowShifted;
    var t0, t1, rest, low :=
        now[at + ii..at + ii + n], s1[at + ii..at + ii + n], now[at + ii + n..at + 2 * n], now[at..at + ii];
    RowSlices(now, s1, s2, at, n, ii, c);
    RowShifts(t0, t1, rest, d * Val(modulus), c);
    ValSnoc(low, c);
    PowStep(ii);
    RowAddsUp(Pow(ii), Pow(n), Val(t0 + rest), Val(t1[1..] + rest), Val(low), c, d, Val(modulus),
              Val(was[at..at + 2 * n]), q);
    QuotientGrows(Pow(ii), q, d);
  }

  lemma RowSlices(now: seq<u32>, s1: seq<u32>, s2: seq<u32>, at: nat, n: nat, ii: nat, c: u32)
    requires ii < n && at + 2 * n <= |now| && Same(s1, now, at + ii, at + ii + n) && s2 == s1[at + ii := c]
    ensures now[at + ii..at + 2 * n] == now[at + ii..at + ii + n] + now[at + ii + n..at + 2 * n]
    ensures s2[at + (ii + 1)..at + 2 * n] == s1[at + ii..at + ii + n][1..] + now[at + ii + n..at + 2 * n]
    ensures s2[at..at + (ii + 1)] == now[at..at + ii] + [c]
  {}

  lemma PowStep(k: nat)
    ensures Pow(k + 1) == B * Pow(k)
  {}

  lemma QuotientGrows(p: int, q: int, d: u32)
    requires p > 0 && 0 <= q < p
    ensures 0 <= q + p * d < B * p
  {
    MulAtMost(p, d, B - 1);
    MulAtMost(p, 0, d);
  }

  /** One row: the sum's lowest limb is zero and goes; the carry is saved. */
  lemma RowShifts(t0: seq<u32>, t1: seq<u32>, rest: seq<u32>, v: int, c: u32)
    requires |t0| == |t1| > 0 && t1[0] == 0 && Makes(t1, c, Val(t0) + v)
    ensures RowShifted(Val(t0 + rest), Val(t1[1..] + rest), v, Pow(|t0|), c)
  {
    hide Val, Pow;
    LowLimb(t1);
    ValAppend(t0, rest);
    ValAppend(t1[1..], rest);
    PowStep(|t0| - 1);
    Regroup(B, Pow(|t0| - 1), Val(rest));
  }

  lemma RowAddsUp(p: int, r: int, high: int, high': int, low: int, c: int, d: int, m: int, s: int, q: int)
    requires RowShifted(high, high', d * m, r, c) && RowsSum(s, m, q, p, high, r, low)
    ensures RowsSum(s, m, q + p * d, B * p, high', r, low + p * c)
  {
    Commute(B, p);
    Regroup(p, B, high');
    Distribute(p, high, d * m - r * c);
    Distribute(p, d * m, -(r * c));
    assert p * -(r * c) == -(p * (r * c));
    Distribute(m, q, p * d);
    Rotate(m, p, d);
    Distribute(r, low, p * c);
    Rotate3(r, p, c);
  }

  /** result is s over R modulo the modulus: the saved carries are added to what is left, and at most one subtraction
      brings the sum back below R. */
  method MonReduce(s: array<u32>, at: nat, modulus: seq<u32>, modInv: u32, result: array<u32>, rp: nat)
    requires Prepared(modulus, modInv) && s != result
    requires at + 2 * |modulus| <= s.Length && rp + |modulus| <= result.Length
    modifies s, result
    ensures Same(s[..], old(s[..]), at, at + 2 * |modulus|) && Same(result[..], old(result[..]), rp, rp + |modulus|)
    ensures Reduced(Val(result[rp..rp + |modulus|]), old(Val(s[at..at + 2 * |modulus|])), Val(modulus), |modulus|)
  {
    hide Val, Pow, Reducing, Reduced, Makes;
    var n := |modulus|;
    ghost var was, q := s[..], 0;
    ReducingStart(was, at, n, Val(modulus));
    var ii: nat := 0;
    while ii < n
      invariant ii <= n && result[..] == old(result[..]) && Reducing(s[..], was, at, n, Val(modulus), ii, q)
    {
      q := ReduceRow(s, at, modulus, modInv, ii, was, q);
      ii := ii + 1;
    }
    FinalSum(s, at, modulus, result, rp, was, q);
    ReducingSame(s[..], was, at, n, Val(modulus), ii, q);
  }

  lemma ReducingSame(now: seq<u32>, was: seq<u32>, at: nat, n: nat, m: int, ii: nat, q: int)
    requires Reducing(now, was, at, n, m, ii, q)
    ensures Same(now, was, at, at + 2 * n)
  {}

  method ReduceRow(s: array<u32>, at: nat, modulus: seq<u32>, modInv: u32, ii: nat, ghost was: seq<u32>, ghost q: int)
    returns (ghost q': int)
    requires Prepared(modulus, modInv) && ii < |modulus| && at + 2 * |modulus| <= s.Length
    requires Reducing(s[..], was, at, |modulus|, Val(modulus), ii, q)
    modifies s
    ensures Reducing(s[..], was, at, |modulus|, Val(modulus), ii + 1, q')
  {
    hide Val, Pow, Reducing, Makes;
    var n := |modulus|;
    ghost var now := s[..];
    var d := (s[at + ii] as int * modInv) % B;
    var c := AddMultiply32(s, at + ii, modulus, d);
    ghost var s1 := s[..];
    assert s1[at + ii..at + ii + n][0] == s1[at + ii] && now[at + ii..at + ii + n][0] == now[at + ii];
    LowLimbClears(now[at + ii..at + ii + n], s1[at + ii..at + ii + n], modulus, modInv, d, c);
    s[at + ii] := c;
    ReducingStep(now, s1, s[..], was, at, n, modulus, ii, q, d, c);
    q' := q + Pow(ii) * d;
  }

  /** Congruent to s over R, and no more than (s + m * (R - 1)) over R. */
  ghost predicate Reduced(x: int, s: int, m: int, n: nat) {
    m > 0 && Cong(x * Pow(n), s, m) && x * Pow(n) <= s + m * (Pow(n) - 1)
  }

  method FinalSum(s: array<u32>, at: nat, modulus: seq<u32>, result: array<u32>, rp: nat, ghost was: seq<u32>,
                  ghost q: int)
    requires |modulus| > 0 && modulus[0] % 2 == 1 && s != result
    requires at + 2 * |modulus| <= s.Length && rp + |modulus| <= result.Length
    requires |was| == s.Length && Reducing(s[..], was, at, |modulus|, Val(modulus), |modulus|, q)
    modifies result
    ensures Same(result[..], old(result[..]), rp, rp + |modulus|)
    ensures Reduced(Val(result[rp..rp + |modulus|]), Val(was[at..at + 2 * |modulus|]), Val(modulus), |modulus|)
  {
    hide Val, Pow, Reducing, Reduced, Makes;
    var n := |modulus|;
    var high, low := s[at + n..at + 2 * n], s[at..at + n];
    var carry := AddTo(result, rp, high, low);
    ghost var t := result[rp..rp + n];
    assert high[..n] == high && s[..][at + n..at + 2 * n] == high && s[..][at..at + n] == low;
    if carry != 0 {
      var borrow := Subtract(result, rp, n, modulus);
      WithCarry(t, result[rp..rp + n], s[..], was, at, modulus, q, borrow);
    } else {
      WithoutCarry(t, s[..], was, at, modulus, q);
    }
  }

  /** The sum before the last step is congruent to s over R, and less than R + m. */
  lemma ReducedSum(s: seq<u32>, was: seq<u32>, at: nat, modulus: seq<u32>, q: int, v: int)
    requires |modulus| > 0 && modulus[0] % 2 == 1 && Reducing(s, was, at, |modulus|, Val(modulus), |modulus|, q)
    requires v == Val(s[at + |modulus|..at + 2 * |modulus|]) + Val(s[at..at + |modulus|])
    ensures Reduced(v, Val(was[at..at + 2 * |modulus|]), Val(modulus), |modulus|) && v < Pow(|modulus|) + Val(modulus)
  {
    hide Val, Pow;
    var n, m, p, s0 := |modulus|, Val(modulus), Pow(|modulus|), Val(was[at..at + 2 * |modulus|]);
    OddModulus(modulus);
    Distribute(p, Val(s[at + n..at + 2 * n]), Val(s[at..at + n]));
    Commute(p, v);
    CongBy(v * p, s0, m, q);
    MulAtMost(m, q, p - 1);
    ValBound(was[at..at + 2 * n]);
    PowSum(n, n);
    Distribute(m, p, -1);
    Commute(m, p);
    Distribute(p, p, m);
    MulLess(p, v, p + m);
  }

  lemma WithoutCarry(t: seq<u32>, s: seq<u32>, was: seq<u32>, at: nat, modulus: seq<u32>, q: int)
    requires |modulus| > 0 && modulus[0] % 2 == 1 && at + 2 * |modulus| <= |s| == |was|
    requires Reducing(s, was, at, |modulus|, Val(modulus), |modulus|, q)
    requires Makes(t, 0, Val(s[at + |modulus|..at + 2 * |modulus|]) + Val(s[at..at + |modulus|]))
    ensures Reduced(Val(t), Val(was[at..at + 2 * |modulus|]), Val(modulus), |modulus|)
  {
    hide Val, Pow, Reducing, Reduced;
    MakesAll(t, Val(s[at + |modulus|..at + 2 * |modulus|]) + Val(s[at..at + |modulus|]));
    ReducedSum(s, was, at, modulus, q, Val(t));
  }

  lemma WithCarry(t: seq<u32>, t': seq<u32>, s: seq<u32>, was: seq<u32>, at: nat, modulus: seq<u32>, q: int,
                  borrow: int)
    requires |modulus| == |t| == |t'| > 0 && modulus[0] % 2 == 1 && at + 2 * |modulus| <= |s| == |was|
    requires Reducing(s, was, at, |modulus|, Val(modulus), |modulus|, q)
    requires Makes(t, 1, Val(s[at + |modulus|..at + 2 * |modulus|]) + Val(s[at..at + |modulus|]))
    requires Makes(t', borrow, Val(t) - Val(modulus)) && -1 <= borrow <= 0
    ensures Reduced(Val(t'), Val(was[at..at + 2 * |modulus|]), Val(modulus), |modulus|)
  {
    hide Val, Pow, Reducing, Reduced;
    var v := Val(s[at + |modulus|..at + 2 * |modulus|]) + Val(s[at..at + |modulus|]);
    ReducedSum(s, was, at, modulus, q, v);
    CarriedOut(t, v);
    Borrowed(t', borrow, Val(t) - Val(modulus));
    OneLess(v, Val(was[at..at + 2 * |modulus|]), Val(modulus), |modulus|);
  }

  lemma CarriedOut(t: seq<u32>, v: int)
    requires Makes(t, 1, v)
    ensures Val(t) == v - Pow(|t|)
  {}

  lemma OneLess(v: int, s: int, m: int, n: nat)
    requires Reduced(v, s, m, n)
    ensures Reduced(v - m, s, m, n)
  {
    hide Pow;
    var p := Pow(n);
    Distribute(p, v, -m);
    assert p * -m == -(p * m);
    Commute(p, v - m);
    Commute(p, v);
    Commute(p, m);
    assert m * -p == -(m * p);
    CongBy((v - m) * p, v * p, m, -p);
    CongTrans((v - m) * p, v * p, s, m);
    MulAtMost(m, 0, p);
  }

  /** Out of the Montgomery domain: n becomes the canonical residue of itself over R. */
  method MonFinish(n: array<u32>, modulus: seq<u32>, modInv: u32)
    requires Prepared(modulus, modInv) && n.Length == |modulus|
    modifies n
    ensures Val(n[..]) < Val(modulus) && Val(modulus) % 2 == 1
    ensures Val(n[..]) == Mean(old(Val(n[..])), Val(modulus), |modulus|)
  {
    hide Val, Pow, Reduced, Makes, Mean;
    var k := |modulus|;
    ghost var v := Val(n[..]);
    var t := new u32[2 * k];
    Widen(t, n[..]);
    OddModulus(modulus);
    MonReduce(t, 0, modulus, modInv, n, 0);
    assert n[0..0 + k] == n[..];
    Canonical(n, modulus, v);
  }

  /** Fixes a result that is not below the modulus. */
  method Canonical(n: array<u32>, modulus: seq<u32>, ghost v: int)
    requires n.Length == |modulus| > 0 && modulus[0] % 2 == 1
    requires v < Pow(|modulus|) && Reduced(Val(n[..]), v, Val(modulus), |modulus|)
    modifies n
    ensures Val(n[..]) < Val(modulus) && Val(modulus) % 2 == 1 && Val(n[..]) == Mean(v, Val(modulus), |modulus|)
  {
    hide Val, Pow, Reduced, Makes, Mean;
    var k := |modulus|;
    OddModulus(modulus);
    AtMostModulus(n[..], v, modulus);
    var less := Less(n[..], modulus);
    if !less {
      assert n[0..0 + k] == n[..];
      var borrow := Subtract(n, 0, k, modulus);
      assert n[0..0 + k] == n[..];
      OneLess(Val(modulus), v, Val(modulus), k);
      Borrowed(n[..], borrow, 0);
    }
    FinishedIs(Val(n[..]), v, Val(modulus), k);
  }

  /** A copy with as many zero limbs above it. */
  method Widen(t: array<u32>, s: seq<u32>)
    requires t.Length == 2 * |s|
    modifies t
    ensures Val(t[0..0 + 2 * |s|]) == Val(s) < Pow(|s|)
  {
    hide Val, Pow;
    Set(t, 0, s);
    forall i | |s| <= i < 2 * |s| {
      t[i] := 0;
    }
    assert t[0..0 + 2 * |s|] == s + Zeros(|s|);
    ZeroPadded(s, |s|);
  }

  lemma ZeroPadded(s: seq<u32>, k: nat)
    requires |s| == k
    ensures Val(s + Zeros(k)) == Val(s) < Pow(k)
  {
    ValAppend(s, Zeros(k));
    ValZeros(Zeros(k));
    ValBound(s);
    assert Pow(k) * 0 == 0;
  }

  lemma AtMostModulus(x: seq<u32>, v: int, modulus: seq<u32>)
    requires |x| == |modulus| && Reduced(Val(x), v, Val(modulus), |modulus|) && v < Pow(|modulus|)
    ensures Val(x) <= Val(modulus)
  {
    hide Val, Pow;
    var p, m := Pow(|modulus|), Val(modulus);
    Distribute(m, p, -1);
    Commute(m, p);
    Commute(Val(x), p);
    MulLess(p, Val(x), m + 1);
    Distribute(p, m, 1);
  }

  lemma FinishedIs(x: int, s: int, m: int, n: nat)
    requires Reduced(x, s, m, n) && m % 2 == 1 && 0 <= x < m
    ensures x == Mean(s, m, n)
  {
    hide Pow;
    MeanOfFinished(x, s, m, n);
  }
}
