/** Shifts of multi-precision numbers, and one-limb products (_attic_/BigInt.cpp). Where the code ORs two shifted
    halves, their bits do not overlap, and the model adds them. */
module LimbShift {
  import opened Limbs
  import opened LimbSum

  function Two(k: nat): (p: nat)
    ensures p > 0
  {
    if k == 0 then 1 else 2 * Two(k - 1)
  }

  lemma {:induction false} TwoSum(j: nat, k: nat)
    ensures Two(j + k) == Two(j) * Two(k)
  {
    if j > 0 {
      TwoSum(j - 1, k);
      Regroup(2, Two(j - 1), Two(k));
    }
  }

  lemma TwoB(k: nat)
    requires k <= 32
    ensures Two(k) * Two(32 - k) == B
  {
    TwoSum(k, 32 - k);
    Two32();
  }

  lemma Two32()
    ensures Two(32) == B
  {
    assert Two(4) == 16;
    TwoSum(4, 4);
    TwoSum(8, 8);
    TwoSum(16, 16);
  }

  function Zeros(n: nat): (s: seq<u32>)
    ensures |s| == n && forall i :: 0 <= i < n ==> s[i] == 0
  {
    if n == 0 then [] else Zeros(n - 1) + [0]
  }

  /** A limb shifted left with the bits of the one below: the low and the high part of the product. */
  lemma ShiftedLimb(r: u32, p: int, q: int, c: int)
    requires p > 0 && q > 0 && p * q == B && 0 <= c < p
    ensures (p * r) % B + c < B && (p * r + c) % B == (p * r) % B + c && (p * r + c) / B == r / q
  {
    var h, l := r / q, r % q;
    DivMod(r, q);
    Distribute(p, q * h, l);
    Regroup(p, q, h);
    assert p * r == B * h + p * l;
    MulAtMost(p, l, q - 1);
    Distribute(p, q, -1);
    DivModIs(p * r, B, h, p * l);
    DivModIs(p * r + c, B, h, p * l + c);
  }

  lemma DivMod(x: int, d: int)
    requires d > 0
    ensures x == d * (x / d) + x % d && 0 <= x % d < d
  {}

  lemma DivModIs(x: int, d: int, h: int, l: int)
    requires d > 0 && x == d * h + l && 0 <= l < d
    ensures x / d == h && x % d == l
  {
    DivMod(x, d);
    assert d * (x / d - h) == l - x % d;
    if x / d > h {
      MulAtMost(d, 1, x / d - h);
    } else if x / d < h {
      MulAtMost(d, x / d - h, -1);
    }
  }

  lemma MulAtMost(p: int, x: int, y: int)
    requires p >= 0 && x <= y
    ensures p * x <= p * y
  {
    assert p * y - p * x == p * (y - x);
  }

  /** out = in << shift; the bits shifted out. */
  method ShiftLeft(out: array<u32>, at: nat, inp: seq<u32>, shift: nat) returns (carry: u32)
    requires at + |inp| <= out.Length && shift < 32
    modifies out
    ensures Same(out[..], old(out[..]), at, at + |inp|)
    ensures Makes(out[at..at + |inp|], carry, Two(shift) * Val(inp)) && carry < Two(shift)
  {
    hide Going, Val, Pow, Two, Zeros, Makes;
    if shift == 0 {
      Set(out, at, inp);
      TwoZero();
      MakesAll(inp, Val(inp));
      return 0;
    }
    var p, q := Two(shift), Two(32 - shift);
    TwoB(shift);
    ghost var s, x := out[..], Zeros(|inp|);
    ValZeros(x);
    GoingStart(s, at, x, inp, p);
    carry := 0;
    var ii: nat := 0;
    while ii < |inp|
      invariant ii <= |inp| && 0 <= carry < p && Going(out[..], s, at, ii, x, inp, p, carry)
    {
      var r := inp[ii];
      ghost var now, t := out[..], p * r + carry;
      GoingStep(now, s, at, ii, x, inp, p, carry, t);
      ShiftedLimb(r, p, q, carry);
      out[at + ii] := (p * r) % B + carry;
      carry := r / q;
      CarryFits(r, p, q);
      ii := ii + 1;
    }
    GoingEnd(out[..], s, at, ii, x, inp, p, carry);
  }

  lemma TwoZero()
    ensures Two(0) == 1
  {}

  lemma CarryFits(r: u32, p: int, q: int)
    requires p > 0 && q > 0 && p * q == B
    ensures 0 <= r / q < p
  {
    DivMod(r, q);
    MulLess(q, r / q, p);
  }

  /** A += B << S; the carry out. */
  method AddLeftShift32(A: array<u32>, at: nat, b: seq<u32>, S: nat) returns (carry: u32)
    requires at + |b| <= A.Length && 0 < S < 32
    modifies A
    ensures Same(A[..], old(A[..]), at, at + |b|)
    ensures Makes(A[at..at + |b|], carry, old(Val(A[at..at + |b|])) + Two(S) * Val(b))
  {
    hide Going, Val, Pow, Two, Makes, ShiftGoing;
    var p, q := Two(S), Two(32 - S);
    TwoB(S);
    ghost var s, x := A[..], A[at..at + |b|];
    ShiftStart(s, at, x, b, p, q);
    var sum, last := 0, 0;
    var ii: nat := 0;
    while ii < |b|
      invariant ii <= |b| && ShiftGoing(A[..], s, at, ii, x, b, p, q, sum, last)
    {
      ghost var now, sum0, last0 := A[..], sum, last;
      ShiftStep(now, s, at, ii, x, b, p, q, sum, last);
      sum := ((p * b[ii]) % B + last / q) + A[at + ii] + sum / B;
      last := b[ii];
      A[at + ii] := sum % B;
      ii := ii + 1;
    }
    ShiftEnd(A[..], s, at, x, b, p, q, sum, last, S);
    carry := sum / B + last / q;
  }

  /** Under way: the carry is the sum's and the bits of the last limb yet to come in. */
  ghost predicate ShiftGoing(now: seq<u32>, was: seq<u32>, at: nat, i: nat, x: seq<u32>, b: seq<u32>, p: int, q: int,
                             sum: int, last: int) {
    && p > 0 && q > 0 && p * q == B && |x| == |b| && at + |x| <= |was| && x == was[at..at + |x|]
    && 0 <= sum < 2 * B && 0 <= last < B && 0 <= last / q < p && Going(now, was, at, i, x, b, p, sum / B + last / q)
  }

  lemma ShiftStep(now: seq<u32>, was: seq<u32>, at: nat, i: nat, x: seq<u32>, b: seq<u32>, p: int, q: int, sum: int,
                  last: int)
    requires ShiftGoing(now, was, at, i, x, b, p, q, sum, last) && i < |b|
    ensures |now| == |was| && q > 0 && at + i < |now|
    ensures var sum' := ((p * b[i]) % B + last / q) + now[at + i] + sum / B;
      ShiftGoing(now[at + i := sum' % B], was, at, i + 1, x, b, p, q, sum', b[i])
  {
    hide Summed;
    InPlace(now, was, at, i, x, b, p, sum / B + last / q);
    ShiftedLimb(b[i], p, q, last / q);
    CarryFits(b[i], p, q);
    GoingStep(now, was, at, i, x, b, p, sum / B + last / q, x[i] + p * b[i] + (sum / B + last / q));
    SplitCarry(x[i] + sum / B, p * b[i] + last / q);
  }

  lemma ShiftEnd(now: seq<u32>, was: seq<u32>, at: nat, x: seq<u32>, b: seq<u32>, p: int, q: int, sum: int, last: int,
                 S: nat)
    requires ShiftGoing(now, was, at, |b|, x, b, p, q, sum, last) && 0 < S < 32 && p == Two(S) && q == Two(32 - S)
    ensures Same(now, was, at, at + |b|) && Makes(now[at..at + |b|], sum / B + last / q, Val(x) + p * Val(b))
    ensures 0 <= sum / B + last / q < B
  {
    hide Val, Pow, Two, Makes, Summed;
    GoingEnd(now, was, at, |b|, x, b, p, sum / B + last / q);
    ShiftCarry(now[at..at + |b|], sum / B + last / q, x, b, p, q, S);
  }

  lemma ShiftStart(was: seq<u32>, at: nat, x: seq<u32>, b: seq<u32>, p: int, q: int)
    requires p > 0 && q > 0 && p * q == B && |x| == |b| && at + |x| <= |was| && x == was[at..at + |x|]
    ensures ShiftGoing(was, was, at, 0, x, b, p, q, 0, 0)
  {
    GoingStart(was, at, x, b, p);
    assert 0 / q == 0;
  }

  lemma ShiftCarry(s: seq<u32>, c: int, x: seq<u32>, b: seq<u32>, p: int, q: int, S: nat)
    requires 0 < S < 32 && p == Two(S) && q == Two(32 - S) && |s| == |x| == |b| && Makes(s, c, Val(x) + p * Val(b))
    ensures c < B
  {
    hide Val, Pow, Two;
    var w := Pow(|b|);
    ValBound(x);
    ValBound(b);
    TwoB(S);
    TwoMore(32 - S);
    MulAtMost(p, 2, q);
    MulAtMost(p, Val(b), w);
    MulLess(w, c, p + 1);
    Distribute(w, p, 1);
  }

  lemma TwoMore(k: nat)
    requires k > 0
    ensures Two(k) >= 2
  {}

  /** out = in >> shift. */
  method ShiftRight(out: array<u32>, at: nat, inp: seq<u32>, shift: nat)
    requires at + |inp| <= out.Length && shift < 32
    modifies out
    ensures Same(out[..], old(out[..]), at, at + |inp|)
    ensures Val(out[at..at + |inp|]) == Val(inp) / Two(shift)
  {
    hide Val, Pow, Two, ShiftedTop;
    if shift == 0 {
      Set(out, at, inp);
      TwoZero();
      return;
    }
    var p, q := Two(shift), Two(32 - shift);
    TwoB(shift);
    ghost var s := out[..];
    ghost var rem := 0;
    var carry := 0;
    var ii: nat := |inp|;
    ShiftedNothing(s, inp, at, p);
    while ii > 0
      invariant ii <= |inp| && carry == rem * q && 0 <= rem < p && ShiftedTop(out[..], s, inp, at, ii, p, rem)
    {
      ii := ii - 1;
      var r := inp[ii];
      ghost var now := out[..];
      ShiftedTopStep(now, s, inp, at, ii, p, q, rem);
      out[at + ii] := r / p + carry;
      carry := (r * q) % B;
      LowBits(r, p, q);
      rem := r % p;
    }
    ShiftedTopEnd(out[..], s, inp, at, p, rem);
  }

  /** The limbs from i up have been shifted; rem are the bits to carry down. */
  ghost predicate ShiftedTop(now: seq<u32>, was: seq<u32>, inp: seq<u32>, at: nat, i: nat, p: int, rem: int) {
    && at + |inp| <= |was| && i <= |inp| && Same(now, was, at + i, at + |inp|)
    && Val(inp[i..]) == p * Val(now[at + i..at + |inp|]) + rem
  }

  lemma ShiftedNothing(was: seq<u32>, inp: seq<u32>, at: nat, p: int)
    requires at + |inp| <= |was|
    ensures ShiftedTop(was, was, inp, at, |inp|, p, 0)
  {
    assert inp[|inp|..] == was[at + |inp|..at + |inp|] == [];
  }

  lemma ShiftedTopStep(now: seq<u32>, was: seq<u32>, inp: seq<u32>, at: nat, i: nat, p: int, q: int, rem: int)
    requires i < |inp| && ShiftedTop(now, was, inp, at, i + 1, p, rem) && p > 0 && q > 0 && p * q == B && 0 <= rem < p
    ensures 0 <= inp[i] / p + rem * q < B
    ensures ShiftedTop(now[at + i := inp[i] / p + rem * q], was, inp, at, i, p, inp[i] % p)
  {
    hide Val;
    var r := inp[i];
    DivMod(r, p);
    MulLess(p, r / p, q);
    MulAtMost(q, rem, p - 1);
    Distribute(q, p, -1);
    var l := r / p + rem * q;
    MulAtMost(q, 0, rem);
    var now' := now[at + i := l];
    var t := now[at + i + 1..at + |inp|];
    assert now'[at + i..at + |inp|] == [l] + t;
    assert inp[i..] == [r] + inp[i + 1..];
    ValCons(l, t);
    ValCons(r, inp[i + 1..]);
    Shifted(p, q, r, rem, l, Val(t));
  }

  lemma ValCons(x: u32, t: seq<u32>)
    ensures Val([x] + t) == x + B * Val(t)
  {
    assert ([x] + t)[1..] == t;
  }

  lemma Shifted(p: int, q: int, r: int, rem: int, l: int, t: int)
    requires p > 0 && p * q == B && l == r / p + rem * q
    ensures r + B * (p * t + rem) == p * (l + B * t) + r % p
  {
    DivMod(r, p);
    Distribute(p, l, B * t);
    Distribute(p, r / p, rem * q);
    Swap(p, q, rem, t);
  }

  lemma Swap(p: int, q: int, rem: int, t: int)
    requires p * q == B
    ensures p * (rem * q) == B * rem && p * (B * t) == B * (p * t)
  {
    Regroup(p, q, rem);
    assert rem * q == q * rem;
    Regroup(p, B, t);
    Regroup(B, p, t);
  }

  lemma LowBits(r: u32, p: int, q: int)
    requires p > 0 && q > 0 && p * q == B
    ensures (r * q) % B == (r % p) * q
  {
    DivMod(r, p);
    assert r * q == q * r;
    Distribute(q, p * (r / p), r % p);
    Regroup(q, p, r / p);
    MulAtMost(q, r % p, p - 1);
    MulAtMost(q, 0, r % p);
    Distribute(q, p, -1);
    DivModIs(r * q, B, r / p, q * (r % p));
  }

  lemma ShiftedTopEnd(now: seq<u32>, was: seq<u32>, inp: seq<u32>, at: nat, p: int, rem: int)
    requires ShiftedTop(now, was, inp, at, 0, p, rem) && 0 <= rem < p
    ensures Same(now, was, at, at + |inp|) && Val(now[at..at + |inp|]) == Val(inp) / p
  {
    hide Val;
    assert inp[0..] == inp;
    DivModIs(Val(inp), p, Val(now[at..at + |inp|]), rem);
  }

  lemma SplitCarry(x: int, y: int)
    ensures (x + y) % B == (x + y % B) % B && (x + y) / B == (x + y % B) / B + y / B
  {}
}
