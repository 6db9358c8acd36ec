/** Long division of multi-precision numbers (_attic_/BigInt.cpp): Algorithm D of The Art of Computer Programming,
    section 4.3.1, with its quotient estimate left unclamped. */
module Division {
  import opened Limbs
  import opened LimbSum
  import opened LimbShift
  import opened LimbProduct
  import opened Karatsuba
  import opened Estimate

  // ---- Sizes and comparison ----

  /** The number of limbs up to the highest one that is not zero. */
  function Used(n: seq<u32>): (k: nat)
    ensures k <= |n| && (k > 0 ==> n[k - 1] != 0)
  {
    if n == [] then 0 else if n[|n| - 1] != 0 then |n| else Used(n[..|n| - 1])
  }

  /** The number of limbs that are actually used; the rest weigh nothing. */
  method LimbDegree(n: seq<u32>) returns (limbs: nat)
    ensures limbs == Used(n) && Val(n) == Val(n[..limbs]) && (limbs == 0 <==> Val(n) == 0)
  {
    limbs := |n|;
    assert n[..|n|] == n;
    while limbs > 0
      invariant limbs <= |n| && Val(n) == Val(n[..limbs]) && Used(n) == Used(n[..limbs])
    {
      assert n[..limbs][..limbs - 1] == n[..limbs - 1];
      if n[limbs - 1] != 0 {
        TopWeighs(n, limbs);
        return;
      }
      limbs := limbs - 1;
      DropZero(n, limbs);
    }
  }

  lemma DropZero(n: seq<u32>, k: nat)
    requires k < |n| && n[k] == 0
    ensures Val(n[..k + 1]) == Val(n[..k])
  {
    assert n[..k + 1] == n[..k] + [0];
    ValSnoc(n[..k], 0);
    assert Pow(k) * 0 == 0;
  }

  /** A number is at least its top limb's weight. */
  lemma TopWeighs(n: seq<u32>, k: nat)
    requires 0 < k <= |n| && n[k - 1] != 0
    ensures Val(n[..k]) >= Pow(k - 1) > 0
  {
    assert n[..k] == n[..k - 1] + [n[k - 1]];
    ValSnoc(n[..k - 1], n[k - 1]);
    MulAtMost(Pow(k - 1), 1, n[k - 1]);
  }

  /** Compares from the top limb down; lengths may differ. */
  method Less(lhs: seq<u32>, rhs: seq<u32>) returns (less: bool)
    ensures less <==> Val(lhs) < Val(rhs)
  {
    var l, r := |lhs|, |rhs|;
    assert lhs[..l] == lhs && rhs[..r] == rhs;
    while l > r
      invariant |rhs| == r && (l == |lhs| || r <= l <= |lhs|) && Val(lhs) == Val(lhs[..l])
    {
      l := l - 1;
      if lhs[l] != 0 {
        TopWeighs(lhs, l + 1);
        PowMore(r, l);
        ValBound(rhs);
        return false;
      }
      DropZero(lhs, l);
    }
    while l < r
      invariant l <= r <= |rhs| && Val(lhs) == Val(lhs[..l]) && Val(rhs) == Val(rhs[..r]) && l <= |lhs|
    {
      r := r - 1;
      if rhs[r] != 0 {
        TopWeighs(rhs, r + 1);
        PowMore(l, r);
        ValBound(lhs[..l]);
        return true;
      }
      DropZero(rhs, r);
    }
    while l > 0
      invariant l <= |lhs| && l <= |rhs|
      invariant Val(lhs) < Val(rhs) <==> Val(lhs[..l]) < Val(rhs[..l])
    {
      l := l - 1;
      FirstDifference(lhs, rhs, l);
      if lhs[l] != rhs[l] {
        return lhs[l] < rhs[l];
      }
    }
    return false;
  }

  lemma {:induction false} PowMore(j: nat, k: nat)
    requires j <= k
    ensures Pow(j) <= Pow(k)
  {
    if j < k {
      PowMore(j, k - 1);
    }
  }

  lemma FirstDifference(x: seq<u32>, y: seq<u32>, k: nat)
    requires k < |x| && k < |y|
    ensures x[k] == y[k] ==> (Val(x[..k + 1]) < Val(y[..k + 1]) <==> Val(x[..k]) < Val(y[..k]))
    ensures x[k] != y[k] ==> (Val(x[..k + 1]) < Val(y[..k + 1]) <==> x[k] < y[k])
  {
    hide Val, Pow;
    var p := Pow(k);
    assert x[..k + 1] == x[..k] + [x[k]] && y[..k + 1] == y[..k] + [y[k]];
    ValSnoc(x[..k], x[k]);
    ValSnoc(y[..k], y[k]);
    ValBound(x[..k]);
    ValBound(y[..k]);
    if x[k] < y[k] {
      MulAtMost(p, x[k] as int + 1, y[k]);
      Distribute(p, x[k], 1);
    } else if x[k] > y[k] {
      MulAtMost(p, y[k] as int + 1, x[k]);
      Distribute(p, y[k], 1);
    }
  }

  // ---- Dividing by one limb ----

  /** A becomes the quotient by one limb; the remainder. */
  method Divide32(A: array<u32>, n: nat, divisor: u32) returns (r: u32)
    requires n <= A.Length && divisor > 0
    modifies A
    ensures Same(A[..], old(A[..]), 0, n)
    ensures old(Val(A[..n])) == Val(A[..n]) * divisor + r && r < divisor
  {
    hide Val;
    ghost var was := A[..];
    var rem := 0;
    var i: nat := n;
    assert was[n..n] == [];
    EmptyVal(divisor);
    while i > 0
      invariant i <= n && 0 <= rem < divisor && Same(A[..], was, i, n)
      invariant Val(was[i..n]) == Val(A[i..n]) * divisor + rem
    {
      i := i - 1;
      ghost var q := A[i + 1..n];
      var t := rem * B + A[i];
      QuotientFits(rem, A[i], divisor);
      A[i] := t / divisor;
      rem := t % divisor;
      assert was[i..n] == [was[i]] + was[i + 1..n] && A[i..n] == [t / divisor] + q;
      ValCons(was[i], was[i + 1..n]);
      ValCons(t / divisor, q);
      LongStep(Val(was[i + 1..n]), Val(q), divisor, was[i], t);
    }
    r := rem;
    assert was[0..n] == was[..n] && A[0..n] == A[..n];
  }

  lemma EmptyVal(d: u32)
    ensures Val([]) == 0 && Val([]) * d == 0
  {}

  lemma QuotientFits(rem: int, a: u32, d: u32)
    requires 0 <= rem < d
    ensures 0 <= (rem * B + a) / d < B && 0 <= (rem * B + a) % d < d
  {
    var t := rem * B + a;
    DivMod(t, d);
    MulAtMost(B, rem + 1, d);
    MulLess(d, t / d, B);
    MulLess(d, -1, t / d);
  }

  lemma LongStep(w: int, q: int, d: int, a: int, t: int)
    requires d > 0 && t == (w - q * d) * B + a
    ensures a + B * w == (t / d + B * q) * d + t % d
  {
    DivMod(t, d);
    Distribute(d, t / d, B * q);
    Commute(d, t / d + B * q);
    Regroup(B, q, d);
  }

  // ---- One limb of the quotient ----

  lemma PowTop(n: nat)
    requires n >= 2
    ensures Pow(n) == B * Pow(n - 1) && Pow(n + 1) == B * (B * Pow(n - 1))
  {}

  /** The two top limbs of the window over the top limb of the divisor. */
  lemma GuessIs(w: seq<u32>, v: seq<u32>)
    requires |w| == |v| + 1 && |v| >= 2 && v[|v| - 1] > 0
    ensures var z := Pow(|v| - 1); Val(v) >= z && Guess(Val(w), Val(v), z) == (w[|v| - 1] + B * w[|v|]) / v[|v| - 1]
  {
    hide Val, Pow;
    var n, z := |v|, Pow(|v| - 1);
    TopPart(v, n - 1);
    TopPart(w, n - 1);
    assert v[n - 1..] == [v[n - 1]] && w[n - 1..] == [w[n - 1]] + [w[n]];
    ValOne(v[n - 1]);
    ValOne(w[n]);
    ValCons(w[n - 1], [w[n]]);
    MulAtMost(z, 1, v[n - 1]);
  }

  lemma TopPart(s: seq<u32>, k: nat)
    requires k <= |s|
    ensures Val(s) / Pow(k) == Val(s[k..]) && Val(s) >= Pow(k) * Val(s[k..])
  {
    hide Val, Pow;
    ValSplit(s, k);
    ValBound(s[..k]);
    DivModIs(Val(s), Pow(k), Val(s[k..]), Val(s[..k]));
  }

  /** The product of the guess and the divisor, in a buffer one limb longer. */
  method StoreProduct(vq: array<u32>, vv: seq<u32>, low: u32, high: int)
    requires |vv| >= 2 && vq.Length == |vv| + 1 && 0 <= high <= 1
    modifies vq
    ensures Val(vq[..]) == Stored(low + B * high, Val(vv), Pow(|vv| - 1))
  {
    hide Val, Pow, Makes, Stored;
    var n := |vv|;
    var c := Multiply32(vq, 0, vv, low);
    ghost var s := vq[0..0 + n];
    vq[n] := c;
    assert vq[..] == s + [c];
    CarryLimb(s, c, low * Val(vv));
    ghost var was := vq[..];
    if high != 0 {
      var t := Add(vq, 1, n, vv);
      assert vq[1..1 + n] == vq[..][1..] && was[1..1 + n] == was[1..] && was[..1] == vq[..][..1];
      UpperAdd(was, vq[..], 1, t, Val(vv));
      StoredIs(vq[..], t, low, 1, Val(vv), n);
    } else {
      MakesAll(vq[..], low * Val(vv));
      StoredIs(vq[..], 0, low, 0, Val(vv), n);
    }
  }

  lemma CarryLimb(s: seq<u32>, c: u32, v: int)
    requires Makes(s, c, v)
    ensures Val(s + [c]) == v
  {
    ValSnoc(s, c);
  }

  lemma StoredIs(s: seq<u32>, t: u32, low: u32, high: int, v: int, n: nat)
    requires n >= 2 && |s| == n + 1 && Makes(s, t, low * v + (if high == 1 then Pow(1) * v else 0))
    requires high == 0 || high == 1
    ensures Val(s) == Stored(low + B * high, v, Pow(n - 1))
  {
    hide Val;
    ValBound(s);
    PowTop(n);
    assert Pow(1) == B;
    Distribute(v, low, B * high);
    assert v * (low + B * high) == (low + B * high) * v && v * low == low * v;
    Commute(Pow(n + 1), t);
    DivModIs((low + B * high) * v, Pow(n + 1), t, Val(s));
  }

  /** Subtracts the product from the window, and adds the divisor back while that has borrowed. */
  method SubtractBack(uu: array<u32>, ii: nat, product: seq<u32>, vv: seq<u32>, low: u32, ghost g: int) returns (q: u32)
    requires 0 < |vv| && |product| == |vv| + 1 && ii + |vv| + 1 <= uu.Length && low == g % B
    modifies uu
    ensures Same(uu[..], old(uu[..]), ii, ii + |vv| + 1)
    ensures var d := old(Val(uu[ii..ii + |vv| + 1])) - Val(product);
      Step(q, Val(uu[ii..ii + |vv| + 1]))
      == if d >= 0 then Step(g % B, d) else if d + Val(vv) >= 0 then Step((g - 1) % B, d + Val(vv))
         else Step((g - 2) % B, (d + 2 * Val(vv)) % Pow(|vv| + 1))
  {
    hide Val, Pow, Makes;
    var n := |vv|;
    ghost var d := Val(uu[ii..ii + n + 1]) - Val(product);
    ValBound(vv);
    ValBound(uu[ii..ii + n + 1]);
    ValBound(product);
    PowMore(n, n + 1);
    q := low;
    var borrow := Subtract(uu, ii, n + 1, product);
    assert uu[ii..ii + (n + 1)] == uu[ii..ii + n + 1];
    Borrowed(uu[ii..ii + n + 1], borrow, d);
    if borrow != 0 {
      q := (q - 1) % B;
      var c := Add(uu, ii, n + 1, vv);
      assert uu[ii..ii + (n + 1)] == uu[ii..ii + n + 1];
      AddedBack(uu[ii..ii + n + 1], c, d + Val(vv));
      if c == 0 {
        q := (q - 1) % B;
        c := Add(uu, ii, n + 1, vv);
        assert uu[ii..ii + (n + 1)] == uu[ii..ii + n + 1];
        AddedBack(uu[ii..ii + n + 1], c, d + 2 * Val(vv));
        Wrapped(d + 2 * Val(vv), Pow(n + 1));
      }
    }
  }

  /** A borrow says the difference was negative. */
  lemma Borrowed(s: seq<u32>, b: int, d: int)
    requires Makes(s, b, d) && -1 <= b <= 0
    ensures b == 0 <==> d >= 0
    ensures Val(s) == if d >= 0 then d else d + Pow(|s|)
  {
    ValBound(s);
  }

  /** A carry out says that what was negative no longer is. */
  lemma AddedBack(s: seq<u32>, c: u32, d: int)
    requires Makes(s, c, d + Pow(|s|)) && c <= 1 && 0 <= d + Pow(|s|) && d < Pow(|s|)
    ensures c == 1 <==> d >= 0
    ensures Val(s) == if d >= 0 then d else d + Pow(|s|)
  {
    ValBound(s);
  }

  lemma Wrapped(d: int, p: int)
    requires -p <= d < p
    ensures d % p == if d >= 0 then d else d + p
  {
    DivModIs(d, p, if d >= 0 then 0 else -1, if d >= 0 then d else d + p);
  }

  /** One limb of the quotient and what is left in the window, as estimated and corrected. */
  method QuotientLimb(uu: array<u32>, ii: nat, vv: seq<u32>, vq: array<u32>) returns (q: u32)
    requires |vv| >= 2 && ii + |vv| + 1 <= uu.Length && vq.Length == |vv| + 1 && uu != vq
    requires Normal(Val(vv), |vv|, Pow(|vv| - 1))
    modifies uu, vq
    ensures Same(uu[..], old(uu[..]), ii, ii + |vv| + 1) && Val(vv) >= Pow(|vv| - 1)
    ensures Step(q, Val(uu[ii..ii + |vv| + 1])) == old(Digit(Val(uu[ii..ii + |vv| + 1]), Val(vv), Pow(|vv| - 1)))
  {
    hide Val, Pow, Guess, Stored;
    var n := |vv|;
    ghost var w, z := uu[ii..ii + n + 1], Pow(n - 1);
    TopLimbBig(vv);
    GuessIs(w, vv);
    ValBound(w);
    PowTop(n);
    GuessSmall(Val(w), Val(vv), n, z);
    var full := (uu[ii + n - 1] as int + B * uu[ii + n]) / vv[n - 1];
    assert full == Guess(Val(w), Val(vv), z);
    var low, high := full % B, full / B;
    StoreProduct(vq, vv, low, high);
    q := SubtractBack(uu, ii, vq[..], vv, low, full);
  }

  lemma TopLimbBig(vv: seq<u32>)
    requires |vv| >= 2 && Normal(Val(vv), |vv|, Pow(|vv| - 1))
    ensures vv[|vv| - 1] > 0
  {
    hide Val, Pow;
    var n := |vv|;
    TopPart(vv, n - 1);
    assert vv[n - 1..] == [vv[n - 1]];
    ValOne(vv[n - 1]);
    TopPositive(Val(vv), Pow(n - 1));
  }
}
