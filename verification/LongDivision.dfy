/** The whole division of multi-precision numbers (_attic_/BigInt.cpp:783-878). */
module LongDivision {
  import opened Limbs
  import opened LimbSum
  import opened LimbShift
  import opened Estimate
  import opened Division
  import opened Quotients

  /** The number of bits used. */
  function Degree(x: nat): (d: nat)
    ensures x > 0 ==> d > 0
  {
    if x == 0 then 0 else 1 + Degree(x / 2)
  }

  lemma {:induction false} DegreeIs(x: nat)
    requires x > 0
    ensures Two(Degree(x) - 1) <= x < Two(Degree(x))
  {
    hide Degree, Two;
    if x > 1 {
      DegreeIs(x / 2);
      DegreeHalf(x);
    } else {
      DegreeOne();
    }
  }

  lemma DegreeHalf(x: nat)
    requires x > 1
    ensures Degree(x) == Degree(x / 2) + 1 && Degree(x / 2) > 0
    ensures Two(Degree(x) - 1) == 2 * Two(Degree(x / 2) - 1) && Two(Degree(x)) == 2 * Two(Degree(x / 2))
  {}

  lemma DegreeOne()
    ensures Degree(1) == 1 && Two(0) == 1 && Two(1) == 2
  {}

  lemma {:induction false} TwoGrows(j: nat, k: nat)
    requires j <= k
    ensures Two(j) <= Two(k)
  {
    if j < k {
      TwoGrows(j, k - 1);
    }
  }

  lemma LimbDegreeAtMost(x: u32)
    requires x > 0
    ensures 0 < Degree(x) <= 32
  {
    DegreeIs(x);
    Two32();
    if Degree(x) > 32 {
      TwoGrows(32, Degree(x) - 1);
    }
  }

  /** The shift that sets the top bit of a divisor's highest limb. */
  function Shift(v: seq<u32>): (shift: nat)
    requires v != [] && v[|v| - 1] > 0
    ensures shift < 32
  {
    LimbDegreeAtMost(v[|v| - 1]);
    32 - Degree(v[|v| - 1])
  }

  /** A divisor the long division is right for, whatever the numerator: not all of the 64 bits from its highest set bit
      down are set with anything below them. */
  predicate Divisible(v: seq<u32>) {
    var n := Used(v);
    n >= 2 ==> Tame(Two(Shift(v[..n])) * Val(v[..n]), n)
  }

  lemma TopBits(x: u32)
    requires x > 0
    ensures Degree(x) <= 32 && B / 2 <= Two(32 - Degree(x)) * x && Two(32 - Degree(x)) * (x as int + 1) <= B
  {
    LimbDegreeAtMost(x);
    DegreeIs(x);
    var d, p := Degree(x), Two(32 - Degree(x));
    TwoSum(32 - d, d);
    TwoSum(32 - d, d - 1);
    Two32();
    assert Two(32) == 2 * Two(31);
    MulAtMost(p, Two(d - 1), x);
    MulAtMost(p, x as int + 1, Two(d));
  }

  /** Shifted so, the divisor is normal. */
  lemma ShiftNormal(v: seq<u32>)
    requires |v| >= 2 && v[|v| - 1] > 0
    ensures Normal(Two(Shift(v)) * Val(v), |v|, Pow(|v| - 1))
  {
    hide Val, Pow, Two;
    var n, p, z := |v|, Two(Shift(v)), Pow(|v| - 1);
    TopBits(v[n - 1]);
    assert v == v[..n - 1] + [v[n - 1]];
    ValSnoc(v[..n - 1], v[n - 1]);
    ValBound(v[..n - 1]);
    NormalBounds(p, Val(v), z, v[n - 1], Val(v[..n - 1]));
  }

  lemma NormalBounds(p: int, v: int, z: int, x: int, low: int)
    requires p > 0 && z > 0 && v == low + z * x && 0 <= low < z && B / 2 <= p * x && p * (x + 1) <= B
    ensures (B / 2) * z <= p * v < B * z
  {
    Distribute(z, x, 1);
    MulAtMost(p, z * x, v);
    MulLess(p, v, z * (x + 1));
    Rotate3(p, z, x);
    Rotate3(p, z, x + 1);
    MulAtMost(z, B / 2, p * x);
    MulAtMost(z, p * (x + 1), B);
  }

  // ---- Small buffer operations ----

  /** Copies limbs and clears the rest. */
  method SetPadded(out: array<u32>, n: nat, inp: seq<u32>)
    requires |inp| <= n <= out.Length
    modifies out
    ensures Same(out[..], old(out[..]), 0, n) && out[..n] == inp + Zeros(n - |inp|)
  {
    forall i | 0 <= i < n {
      out[i] := if i < |inp| then inp[i] else 0;
    }
  }

  /** A limb, and zeros above it. */
  method Set32(out: array<u32>, at: nat, n: nat, x: u32)
    requires n > 0 && at + n <= out.Length
    modifies out
    ensures Same(out[..], old(out[..]), at, at + n) && out[at..at + n] == [x] + Zeros(n - 1)
  {
    out[at] := x;
    forall i | 1 <= i < n {
      out[at + i] := 0;
    }
  }

  lemma Padded(s: seq<u32>, k: nat)
    ensures Val(s + Zeros(k)) == Val(s)
  {
    ValAppend(s, Zeros(k));
    ValZeros(Zeros(k));
    assert Pow(|s|) * 0 == 0;
  }

  /** q and r are the quotient and the remainder of u by v. */
  ghost predicate Quotient(u: nat, v: nat, q: nat, r: nat) {
    u == q * v + r && r < v
  }

  /** That settles both. */
  lemma QuotientIs(u: nat, v: nat, q: nat, r: nat)
    requires v > 0
    ensures Quotient(u, v, q, r) <==> q == u / v && r == u % v
  {
    DivMod(u, v);
    Commute(v, u / v);
    if Quotient(u, v, q, r) {
      Commute(q, v);
      DivModIs(u, v, q, r);
    }
  }

  // ---- The digits ----

  /** With the quotient limbs ds found so far and x left below them, the run still comes to this. */
  ghost predicate ComesTo(all: Step, ds: seq<u32>, x: int, v: int, n: nat, ii: nat) {
    n >= 2 && Normal(v, n, Pow(n - 1)) && var rest := Run(x, v, n, ii);
    all == Step(Pow(ii) * Val(ds) + rest.digit, rest.rest)
  }

  lemma NextDigit(uu: seq<u32>, uu': seq<u32>, ds: seq<u32>, v: int, n: nat, ii: nat, all: Step, d: u32)
    requires ii + n + 1 <= |uu| && ComesTo(all, ds, Val(uu[..ii + 1 + n]), v, n, ii + 1)
    requires Same(uu', uu, ii, ii + n + 1)
    requires v >= Pow(n - 1) && Step(d, Val(uu'[ii..ii + n + 1])) == Digit(Val(uu[ii..ii + n + 1]), v, Pow(n - 1))
    ensures ComesTo(all, [d] + ds, Val(uu'[..ii + n]), v, n, ii)
  {
    hide Val, Pow, Normal, Digit;
    var p := Pow(ii);
    LowAndWindow(uu, ii, n + 1);
    LowAndWindow(uu', ii, n);
    LowAndWindow(uu'[ii..ii + n + 1], n, 1);
    assert uu'[ii..ii + n + 1][..n] == uu'[ii..ii + n] && uu'[..ii] == uu[..ii];
    assert uu[..ii + (n + 1)] == uu[..ii + 1 + n] && uu[ii..ii + (n + 1)] == uu[ii..ii + n + 1];
    assert uu'[ii..ii + n + 1][..n + 1] == uu'[ii..ii + n + 1];
    ValCons(d, ds);
    PowNext(ii);
    Distribute(p, d, B * Val(ds));
    Regroup(p, B, Val(ds));
    Commute(p, B);
  }

  lemma LowAndWindow(s: seq<u32>, k: nat, m: nat)
    requires k + m <= |s|
    ensures Val(s[..k + m]) == Val(s[..k]) + Pow(k) * Val(s[k..k + m])
    ensures Val(s[..k + m]) / Pow(k) == Val(s[k..k + m]) && Val(s[..k + m]) % Pow(k) == Val(s[..k])
  {
    hide Val, Pow;
    var t := s[..k + m];
    assert t[..k] == s[..k] && t[k..] == s[k..k + m];
    ValSplit(t, k);
    ValBound(t[..k]);
    DivModIs(Val(t), Pow(k), Val(t[k..]), Val(t[..k]));
  }

  /** The quotient limbs below the highest, from the top down. */
  method Digits(uu: array<u32>, vv: seq<u32>, q: array<u32>, qh: nat)
    requires |vv| >= 2 && qh + |vv| == uu.Length && qh < q.Length && uu != q
    requires Normal(Val(vv), |vv|, Pow(|vv| - 1))
    modifies uu, q
    ensures Same(q[..], old(q[..]), 0, qh)
    ensures Step(Val(q[..qh]), Val(uu[..|vv|])) == Run(old(Val(uu[..])), Val(vv), |vv|, qh)
  {
    hide Val, Pow, Normal, Digit, ComesTo;
    var n := |vv|;
    ghost var was, all := q[..], Run(Val(uu[..]), Val(vv), n, qh);
    var vq := new u32[n + 1];
    var ii: nat := qh;
    assert uu[..ii + n] == uu[..] && q[ii..qh] == [];
    NoDigits(all, Val(uu[..]), Val(vv), n, qh);
    while ii > 0
      invariant ii <= qh && Same(q[..], was, 0, qh) && ComesTo(all, q[ii..qh], Val(uu[..ii + n]), Val(vv), n, ii)
    {
      ii := ii - 1;
      ghost var ds := q[ii + 1..qh];
      ghost var uu0 := uu[..];
      assert uu0[ii..ii + n + 1] == uu[ii..ii + n + 1] && uu0[..ii + 1 + n] == uu[..ii + 1 + n];
      var d := QuotientLimb(uu, ii, vv, vq);
      assert uu[..][ii..ii + n + 1] == uu[ii..ii + n + 1] && uu[..][..ii + n] == uu[..ii + n];
      NextDigit(uu0, uu[..], ds, Val(vv), n, ii, all, d);
      q[ii] := d;
      assert q[ii..qh] == [d] + ds;
    }
    assert q[0..qh] == q[..qh] && uu[..0 + n] == uu[..n];
    AllDigits(all, q[..qh], Val(uu[..n]), Val(vv), n);
  }

  lemma NoDigits(all: Step, x: int, v: int, n: nat, qh: nat)
    requires n >= 2 && Normal(v, n, Pow(n - 1)) && all == Run(x, v, n, qh)
    ensures ComesTo(all, [], x, v, n, qh)
  {
    assert Pow(qh) * 0 == 0;
  }

  lemma AllDigits(all: Step, ds: seq<u32>, x: int, v: int, n: nat)
    requires ComesTo(all, ds, x, v, n, 0)
    ensures all == Step(Val(ds), x)
  {
    assert Pow(0) * Val(ds) == Val(ds);
  }

  /** The quotient's highest limb is 0 or 1: one compare and subtract. */
  method TopDigit(uu: array<u32>, vv: seq<u32>, q: array<u32>, qh: nat, count: nat) returns (top: u32)
    requires |vv| >= 2 && qh + |vv| == uu.Length && qh + count <= q.Length && count > 0 && uu != q
    modifies uu, q
    ensures Same(q[..], old(q[..]), qh, qh + count) && q[qh..qh + count] == [top] + Zeros(count - 1)
    ensures top == if old(Val(uu[..])) / Pow(qh) >= Val(vv) then 1 else 0
    ensures Val(uu[..]) == old(Val(uu[..])) - Pow(qh) * (top * Val(vv))
  {
    hide Val, Pow;
    var n := |vv|;
    ghost var was, t := uu[..], uu[qh..qh + n];
    LowAndWindow(was, qh, n);
    assert was[..qh + n] == was && was[qh..qh + n] == t;
    var less := Less(uu[qh..qh + n], vv);
    top := if less then 0 else 1;
    if !less {
      var borrow := Subtract(uu, qh, n, vv);
      NoBorrow(uu[qh..qh + n], borrow, Val(t), Val(vv));
    }
    Set32(q, qh, count, top);
    TopLeaves(was, uu[..], top, Val(vv), n, qh);
  }

  lemma NoBorrow(s: seq<u32>, b: int, t: int, v: int)
    requires Makes(s, b, t - v) && -1 <= b <= 0 && t >= v
    ensures Val(s) == t - v
  {
    Borrowed(s, b, t - v);
  }

  lemma TopLeaves(was: seq<u32>, uu: seq<u32>, top: u32, v: int, n: nat, qh: nat)
    requires |uu| == |was| == qh + n && uu[..qh] == was[..qh] && top <= 1
    requires Val(uu[qh..qh + n]) == Val(was[qh..qh + n]) - (if top == 1 then v else 0)
    ensures Val(uu) == Val(was) - Pow(qh) * (top * v)
  {
    hide Val, Pow;
    assert uu[..qh + n] == uu && was[..qh + n] == was;
    LowAndWindow(was, qh, n);
    LowAndWindow(uu, qh, n);
    Distribute(Pow(qh), Val(uu[qh..qh + n]), top * v);
  }

  /** The whole run on used limbs: shift the divisor's top bit up, divide, and shift the remainder back. */
  ghost function Long(u: seq<u32>, v: seq<u32>): Step
    requires |u| >= |v| >= 2 && v[|v| - 1] > 0
  {
    ShiftNormal(v);
    var p := Two(Shift(v));
    var s := Divided(p * Val(u), p * Val(v), |v|, LimbsAbove(u, v));
    Step(s.digit, s.rest / p)
  }

  /** How many limbs the shifted numerator has above the divisor's. */
  function LimbsAbove(u: seq<u32>, v: seq<u32>): (qh: nat)
    requires |u| >= |v| > 0 && v[|v| - 1] > 0
  {
    (if Shift(v) > 0 then |u| + 1 else |u|) - |v|
  }

  /** Unshifting: the quotient is unchanged and the remainder divides exactly. */
  lemma Unshift(p: int, u: int, v: int, q: int, r: int)
    requires p > 0 && p * u == q * (p * v) + r && 0 <= r < p * v
    ensures u == q * v + r / p && 0 <= r / p < v
  {
    Rotate3(q, p, v);
    Distribute(p, u, -(q * v));
    assert p * -(q * v) == -(p * (q * v));
    DivModIs(r, p, u - q * v, 0);
    MulLess(p, u - q * v, v);
    MulLess(p, -1, u - q * v);
  }

  /** The division by a divisor of two limbs or more. */
  method DivideLong(u: seq<u32>, v: seq<u32>, q: array<u32>, r: array<u32>)
    requires |u| >= |v| >= 2 && v[|v| - 1] > 0
    requires q != r && q.Length >= |u| && r.Length >= |v|
    modifies q, r
    ensures Same(q[..], old(q[..]), 0, |u|) && Same(r[..], old(r[..]), 0, |v|)
    ensures Step(Val(q[..|u|]), Val(r[..|v|])) == Long(u, v)
  {
    hide Val, Pow, Two, Normal, Shift, Run, Long;
    var n, shift := |v|, Shift(v);
    var used := if shift > 0 then |u| + 1 else |u|;
    var uu, vv := new u32[used], new u32[n];
    Shifted(u, v, shift, uu, vv);
    ShiftNormal(v);
    var qh := used - n;
    var top := TopDigit(uu, vv[..], q, qh, |u| - qh);
    ghost var high := q[qh..qh + (|u| - qh)];
    Digits(uu, vv[..], q, qh);
    assert q[..|u|] == q[..qh] + high;
    TopWorth(q[..qh], top, |u| - qh - 1);
    LongFrom(u, v, top, Val(q[..qh]), Val(uu[..n]));
    ShiftRight(r, 0, uu[..n], shift);
    assert r[0..0 + n] == r[..n];
  }

  lemma LongFrom(u: seq<u32>, v: seq<u32>, top: int, low: int, rest: int)
    requires |u| >= |v| >= 2 && v[|v| - 1] > 0 && Normal(Two(Shift(v)) * Val(v), |v|, Pow(|v| - 1))
    requires var p, qh := Two(Shift(v)), LimbsAbove(u, v);
      && top == (if (p * Val(u)) / Pow(qh) >= p * Val(v) then 1 else 0)
      && Step(low, rest) == Run(p * Val(u) - Pow(qh) * (top * (p * Val(v))), p * Val(v), |v|, qh)
    ensures Long(u, v) == Step(Pow(LimbsAbove(u, v)) * top + low, rest / Two(Shift(v)))
  {
    hide Val, Pow, Two, Normal, Shift, Run;
  }

  lemma TopWorth(ds: seq<u32>, top: u32, k: nat)
    ensures Val(ds + ([top] + Zeros(k))) == Pow(|ds|) * top + Val(ds)
  {
    hide Val, Pow;
    assert ds + ([top] + Zeros(k)) == (ds + [top]) + Zeros(k);
    Padded(ds + [top], k);
    ValSnoc(ds, top);
  }

  /** Both numbers shifted left; the numerator's buffer takes the bits shifted out. */
  method Shifted(u: seq<u32>, v: seq<u32>, shift: nat, uu: array<u32>, vv: array<u32>)
    requires |v| >= 2 && v[|v| - 1] > 0 && shift == Shift(v) && uu != vv
    requires vv.Length == |v| && uu.Length == (if shift > 0 then |u| + 1 else |u|)
    modifies uu, vv
    ensures Val(uu[..]) == Two(shift) * Val(u) && Val(vv[..]) == Two(shift) * Val(v)
  {
    hide Val, Pow, Two, Normal, Makes, Shift;
    if shift > 0 {
      var out := ShiftLeft(vv, 0, v, shift);
      assert vv[0..0 + |v|] == vv[..];
      NothingOut(v, vv[..], out, shift);
      var c := ShiftLeft(uu, 0, u, shift);
      ghost var s := uu[0..0 + |u|];
      uu[|u|] := c;
      assert uu[..] == s + [c];
      CarryLimb(s, c, Two(shift) * Val(u));
    } else {
      Set(uu, 0, u);
      Set(vv, 0, v);
      assert uu[0..0 + |u|] == uu[..] && vv[0..0 + |v|] == vv[..];
      TwoZero();
    }
  }

  lemma NothingOut(v: seq<u32>, s: seq<u32>, c: u32, shift: nat)
    requires |v| >= 2 && v[|v| - 1] > 0 && shift == Shift(v) && |s| == |v| && Makes(s, c, Two(shift) * Val(v))
    ensures Val(s) == Two(shift) * Val(v)
  {
    hide Val, Two, Shift;
    ShiftNormal(v);
    PowNext(|v| - 1);
    Karatsuba.NoCarryOut(Val(s), Pow(|s|), c, Two(shift) * Val(v));
  }

  /** What Divide leaves in q and r: the long division's digits if it comes to that, and else the quotient. */
  ghost function Result(u: seq<u32>, v: seq<u32>): Step
    requires Val(v) != 0
  {
    UsedVal(u);
    UsedVal(v);
    if Used(v) >= 2 && Val(u) >= Val(v) then
      BigEnough(u[..Used(u)], v[..Used(v)]);
      Long(u[..Used(u)], v[..Used(v)])
    else
      Step(Val(u) / Val(v), Val(u) % Val(v))
  }

  /** {q, r} = u / v, with q on the used limbs of u; false if v is zero. */
  method Divide(u: seq<u32>, v: seq<u32>, q: array<u32>, r: array<u32>) returns (ok: bool)
    requires |u| > 0 && q != r && q.Length >= |u| && r.Length >= |v|
    modifies q, r
    ensures ok <==> Val(v) != 0
    ensures !ok ==> q[..] == old(q[..]) && r[..] == old(r[..])
    ensures ok ==> Step(Val(q[..Used(u)]), Val(r[..|v|])) == Result(u, v)
    ensures ok && Divisible(v) ==> Quotient(Val(u), Val(v), Val(q[..Used(u)]), Val(r[..|v|]))
    ensures Same(q[..], old(q[..]), 0, |u|) && Same(r[..], old(r[..]), 0, |v|)
  {
    hide Val, Pow, Two, Used, Zeros, Tame, Shift, Quotient, Long, Divisible;
    var vUsed := LimbDegree(v);
    if vUsed == 0 {
      return false;
    }
    var uUsed := LimbDegree(u);
    ok := true;
    if Divisible(v) {
      ResultRight(u, v);
    }
    if uUsed <= vUsed {
      var less := Less(u[..uUsed], v[..vUsed]);
      if less {
        SetPadded(r, |v|, u[..uUsed]);
        Padded(u[..uUsed], |v| - uUsed);
        Set32(q, 0, |u|, 0);
        ZeroQuotient(q[..uUsed], q[0..0 + |u|], Val(u), Val(v));
        QuotientIs(Val(u), Val(v), Val(q[..uUsed]), Val(r[..|v|]));
        return;
      }
    }
    if vUsed == 1 {
      DivideByLimb(u, v, q, r);
      QuotientIs(Val(u), Val(v), Val(q[..uUsed]), Val(r[..|v|]));
      return;
    }
    NotLess(u[..uUsed], v[..vUsed]);
    DivideLong(u[..uUsed], v[..vUsed], q, r);
    ghost var rem, quo := r[..vUsed], q[..uUsed];
    forall i | vUsed <= i < |v| {
      r[i] := 0;
    }
    assert r[..|v|] == rem + Zeros(|v| - vUsed);
    Padded(rem, |v| - vUsed);
    assert q[..uUsed] == quo;
    QuotientIs(Val(u), Val(v), Val(quo), Val(rem));
  }

  lemma NotLess(u: seq<u32>, v: seq<u32>)
    requires |v| > 0 && v[|v| - 1] > 0 && (|u| <= |v| ==> Val(u) >= Val(v)) && (|u| > 0 ==> u[|u| - 1] > 0)
    ensures |u| >= |v| && Val(u) >= Val(v)
  {
    BigEnough(u, v);
    if |u| > |v| {
      ValBound(v);
      TopWeighs(u, |u|);
      assert u[..|u|] == u;
      PowMore(|v|, |u| - 1);
    }
  }

  // ---- When the result is the quotient ----

  lemma LongRight(u: seq<u32>, v: seq<u32>)
    requires |u| >= |v| >= 2 && v[|v| - 1] > 0 && Tame(Two(Shift(v)) * Val(v), |v|)
    ensures Val(v) > 0 && Long(u, v) == Step(Val(u) / Val(v), Val(u) % Val(v))
  {
    hide Val, Pow, Two, Tame, Normal, Shift, Divided;
    var n, p, qh := |v|, Two(Shift(v)), LimbsAbove(u, v);
    ShiftNormal(v);
    NormalTop(p * Val(v), n);
    ShiftedFits(u, v);
    DividedRight(p * Val(u), p * Val(v), n, qh);
    var x, y := p * Val(u), p * Val(v);
    DivMod(x, y);
    Commute(y, x / y);
    Commute(p, 0);
    Positive(p, Val(v));
    Unshift(p, Val(u), Val(v), x / y, x % y);
    QuotientIs(Val(u), Val(v), x / y, (x % y) / p);
  }

  lemma Positive(p: int, v: nat)
    requires p * v > 0
    ensures v > 0
  {
    Commute(p, 0);
  }

  lemma ShiftedFits(u: seq<u32>, v: seq<u32>)
    requires |u| >= |v| >= 2 && v[|v| - 1] > 0
    ensures 0 <= Two(Shift(v)) * Val(u) < Pow(LimbsAbove(u, v)) * Pow(|v|)
  {
    hide Val, Pow, Two, Shift;
    var k, p := |u|, Two(Shift(v));
    PowSum(LimbsAbove(u, v), |v|);
    ValBound(u);
    if Shift(v) > 0 {
      TwoB(Shift(v));
      PowNext(k);
      MulLess(p, Val(u), Pow(k));
      MulAtMost(p, 1, Two(32 - Shift(v)));
      MulAtMost(Pow(k), p, B);
      Commute(Pow(k), p);
      Commute(Pow(k), B);
    } else {
      TwoZero();
    }
    MulAtMost(p, 0, Val(u));
  }

  lemma ResultRight(u: seq<u32>, v: seq<u32>)
    requires Val(v) != 0 && Divisible(v)
    ensures Result(u, v) == Step(Val(u) / Val(v), Val(u) % Val(v))
  {
    hide Val, Tame, Shift, Long;
    UsedVal(u);
    UsedVal(v);
    if Used(v) >= 2 && Val(u) >= Val(v) {
      BigEnough(u[..Used(u)], v[..Used(v)]);
      LongRight(u[..Used(u)], v[..Used(v)]);
    }
  }

  /** The numerator whose division fails: B^(n-2) (B^2 - 1) shifted so that its top bits line up with the divisor's. */
  function Failing(n: nat, shift: nat): (u: seq<u32>)
    requires n >= 2 && shift < 32
    ensures |u| == n + 1 && u[n] > 0
  {
    TwoMore(32 - shift);
    TwoB(shift);
    MulAtMost(Two(32 - shift), 1, Two(shift));
    var e := Two(32 - shift);
    Zeros(n - 2) + [B - e, B - 1, e - 1]
  }

  lemma FailingIs(n: nat, shift: nat)
    requires n >= 2 && shift < 32
    ensures Two(shift) * Val(Failing(n, shift)) == B * (Pow(n) - Pow(n - 2))
  {
    hide Two;
    var e, s := Two(32 - shift), Failing(n, shift);
    var t := s[n - 2..];
    assert s[..n - 2] == Zeros(n - 2) && t == [B - e] + ([B - 1] + [e - 1]);
    ValSplit(s, n - 2);
    ValZeros(Zeros(n - 2));
    ValOne(e - 1);
    ValCons(B - 1, [e - 1]);
    ValCons(B - e, [B - 1] + [e - 1]);
    TwoB(shift);
    PowTwoDown(n);
    Weigh(Two(shift), e, Pow(n - 2));
  }

  lemma Weigh(p: int, e: int, z: int)
    requires p * e == B
    ensures p * (z * (B * B * e - e)) == B * (B * (B * z) - z)
  {
    assert z * (B * B * e - e) == e * (z * (B * B - 1));
    Regroup(p, e, z * (B * B - 1));
  }

  lemma ResultWrong(v: seq<u32>) returns (u: seq<u32>)
    requires Val(v) != 0 && !Divisible(v)
    ensures Result(u, v).digit == 1 < Val(u) / Val(v)
  {
    hide Val, Pow, Two, Tame, Shift, Normal, Divided;
    var n := Used(v);
    var w := v[..n];
    UsedVal(v);
    u := Failing(n, Shift(w));
    ShiftNormal(w);
    FailingIs(n, Shift(w));
    assert u[..Used(u)] == u;
    var p := Two(Shift(w));
    var x := DividedWrong(p * Val(w), n, LimbsAbove(u, w));
    Scaled(p, Val(u), Val(w));
    DivMod(Val(u), Val(v));
    NotLess(u, w);
  }

  lemma Scaled(p: int, u: int, v: int)
    requires p > 0 && u >= 0 && p * v > 0
    ensures v > 0 && (p * u) / (p * v) == u / v
  {
    Positive(p, if v >= 0 then v else 0);
    DivMod(u, v);
    MulLess(p, u % v, v);
    MulAtMost(p, 0, u % v);
    Distribute(p, v * (u / v), u % v);
    Regroup(p, v, u / v);
    DivModIs(p * u, p * v, u / v, p * (u % v));
  }

  /** Divide is right for every numerator exactly when the divisor is not one of those with all of the 64 bits from its
      highest set bit down set, and anything below them. */
  lemma DivideRightIff(v: seq<u32>)
    requires Val(v) != 0
    ensures (forall u :: Result(u, v) == Step(Val(u) / Val(v), Val(u) % Val(v))) <==> Divisible(v)
  {
    hide Val, Result, Divisible;
    if Divisible(v) {
      forall u ensures Result(u, v) == Step(Val(u) / Val(v), Val(u) % Val(v)) {
        ResultRight(u, v);
      }
    } else {
      var u := ResultWrong(v);
      assert Result(u, v) != Step(Val(u) / Val(v), Val(u) % Val(v));
    }
  }

  lemma ZeroQuotient(s: seq<u32>, t: seq<u32>, u: nat, v: nat)
    requires 0 < |t| && |s| <= |t| && t == [0] + Zeros(|t| - 1) && s == t[..|s|] && u < v
    ensures Quotient(u, v, Val(s), u)
  {
    ValZeros(s);
  }

  lemma BigEnough(u: seq<u32>, v: seq<u32>)
    requires |v| > 0 && v[|v| - 1] > 0 && (|u| <= |v| ==> Val(u) >= Val(v))
    ensures |u| >= |v|
  {
    ValBound(u);
    TopWeighs(v, |v|);
    assert v[..|v|] == v;
    if |u| < |v| {
      PowMore(|u|, |v| - 1);
    }
  }

  /** The faster division by one limb. */
  method DivideByLimb(u: seq<u32>, v: seq<u32>, q: array<u32>, r: array<u32>)
    requires |u| > 0 && q != r && q.Length >= |u| && r.Length >= |v| && Used(v) == 1 && Val(v) == Val(v[..1])
    modifies q, r
    ensures Quotient(Val(u), Val(v), Val(q[..Used(u)]), Val(r[..|v|]))
    ensures Same(q[..], old(q[..]), 0, |u|) && Same(r[..], old(r[..]), 0, |v|)
  {
    hide Val, Pow, Used, Zeros;
    Set(q, 0, u);
    assert q[0..0 + |u|] == q[..|u|];
    assert v[..1] == [v[0]];
    ValOne(v[0]);
    var rem := Divide32(q, |u|, v[0]);
    Set32(r, 0, |v|, rem);
    assert r[..|v|] == r[0..0 + |v|];
    Padded([rem], |v| - 1);
    ValOne(rem);
    HighLimbsZero(u, q[..|u|], v[0], rem);
    assert q[..|u|][..Used(u)] == q[..Used(u)];
  }

  /** A quotient is no longer than its numerator. */
  lemma HighLimbsZero(u: seq<u32>, q: seq<u32>, d: u32, rem: u32)
    requires |u| == |q| && d > 0 && Val(u) == Val(q) * d + rem
    ensures Val(q[..Used(u)]) == Val(q)
  {
    hide Val, Pow;
    UsedVal(u);
    var k := Used(u);
    ValBound(u[..k]);
    MulAtMost(Val(q), 1, d);
    ValSplit(q, k);
    if Val(q[k..]) > 0 {
      MulAtMost(Pow(k), 1, Val(q[k..]));
    }
    assert Pow(k) * 0 == 0;
  }

  lemma {:induction false} UsedVal(n: seq<u32>)
    ensures Val(n[..Used(n)]) == Val(n)
  {
    if n == [] {
    } else if n[|n| - 1] != 0 {
      assert n[..|n|] == n;
    } else {
      var k := |n| - 1;
      UsedVal(n[..k]);
      DropZero(n, k);
      assert n[..k + 1] == n && n[..k][..Used(n)] == n[..Used(n)];
    }
  }
}
