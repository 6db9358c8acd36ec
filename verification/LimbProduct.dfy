/** Products of multi-precision numbers: row by row, and Karatsuba's (_attic_/BigInt.cpp). */
module LimbProduct {
  import opened Limbs
  import opened LimbSum
  import opened LimbShift

  lemma LimbTimes(x: u32, y: u32)
    ensures 0 <= x as int * y as int <= (B - 1) * (B - 1)
  {
    MulAtMost(x, y, B - 1);
    MulAtMost(B - 1, x, B - 1);
    MulAtMost(x, 0, y);
  }

  /** result = A times a limb; the carry out. */
  method Multiply32(result: array<u32>, at: nat, A: seq<u32>, m: u32) returns (carry: u32)
    requires at + |A| <= result.Length && |A| > 0
    modifies result
    ensures Same(result[..], old(result[..]), at, at + |A|)
    ensures Makes(result[at..at + |A|], carry, m * Val(A))
  {
    hide Going, Val, Pow, Zeros, Makes;
    ghost var s, x := result[..], Zeros(|A|);
    ValZeros(x);
    GoingStart(s, at, x, A, m);
    LimbTimes(A[0], m);
    var p := A[0] as int * m;
    GoingStep(s, s, at, 0, x, A, m, 0, p);
    result[at] := p % B;
    var i: nat := 1;
    while i < |A|
      invariant 1 <= i <= |A| && 0 <= p < B * B && Going(result[..], s, at, i, x, A, m, p / B)
    {
      ghost var now, c := result[..], p / B;
      LimbTimes(A[i], m);
      p := A[i] as int * m + p / B;
      GoingStep(now, s, at, i, x, A, m, c, p);
      result[at + i] := p % B;
      i := i + 1;
    }
    GoingEnd(result[..], s, at, i, x, A, m, p / B);
    carry := p / B;
  }

  /** A += b times a limb; the carry out. */
  method AddMultiply32(A: array<u32>, at: nat, b: seq<u32>, m: u32) returns (carry: u32)
    requires at + |b| <= A.Length && |b| > 0
    modifies A
    ensures Same(A[..], old(A[..]), at, at + |b|)
    ensures Makes(A[at..at + |b|], carry, old(Val(A[at..at + |b|])) + m * Val(b))
  {
    hide Going, Val, Pow, Makes;
    ghost var s, x := A[..], A[at..at + |b|];
    GoingStart(s, at, x, b, m);
    LimbTimes(b[0], m);
    var p := b[0] as int * m + A[at];
    GoingStep(s, s, at, 0, x, b, m, 0, p);
    A[at] := p % B;
    var i: nat := 1;
    while i < |b|
      invariant 1 <= i <= |b| && 0 <= p < B * B && Going(A[..], s, at, i, x, b, m, p / B)
    {
      InPlace(A[..], s, at, i, x, b, m, p / B);
      ghost var now, c := A[..], p / B;
      LimbTimes(b[i], m);
      p := b[i] as int * m + A[at + i] + p / B;
      GoingStep(now, s, at, i, x, b, m, c, p);
      A[at + i] := p % B;
      i := i + 1;
    }
    GoingEnd(A[..], s, at, i, x, b, m, p / B);
    carry := p / B;
  }

  /** Adding t to the middle limbs and writing the carry above them adds t at their weight. */
  lemma RowAdded(pre: seq<u32>, mid: seq<u32>, mid': seq<u32>, c: u32, t: int)
    requires |mid'| == |mid| && Makes(mid', c, Val(mid) + t)
    ensures Val(pre + mid' + [c]) == Val(pre + mid) + Pow(|pre|) * t
  {
    hide Val, Pow;
    ValAppend(pre, mid);
    ValAppend(pre, mid');
    ValSnoc(pre + mid', c);
    PowSum(|pre|, |mid|);
    Regroup(Pow(|pre|), Pow(|mid|), c);
    Distribute(Pow(|pre|), Val(mid'), Pow(|mid|) * c);
    Distribute(Pow(|pre|), Val(mid), t);
  }

  /** The rows so far make v in the lowest limbs of the buffer. */
  ghost predicate Rows(now: seq<u32>, was: seq<u32>, at: nat, n: nat, k: nat, v: int) {
    at + 2 * n <= |was| && k <= n && Same(now, was, at, at + 2 * n) && Val(now[at..at + n + k]) == v
  }

  lemma FirstRow(now: seq<u32>, s: seq<u32>, was: seq<u32>, at: nat, n: nat, c: u32, v: int)
    requires n > 0 && at + 2 * n <= |was| && Same(s, was, at, at + n)
    requires now == s[at + n := c] && Makes(s[at..at + n], c, v)
    ensures Rows(now, was, at, n, 1, v)
  {
    hide Val, Pow;
    assert now[at..at + n + 1] == s[at..at + n] + [c];
    ValSnoc(s[at..at + n], c);
  }

  lemma NextRow(now: seq<u32>, s: seq<u32>, s0: seq<u32>, was: seq<u32>, at: nat, n: nat, k: nat, c: u32, v: int,
                t: int)
    requires Rows(s0, was, at, n, k, v) && 0 < k < n && Same(s, s0, at + k, at + k + n) && now == s[at + k + n := c]
    requires Makes(s[at + k..at + k + n], c, Val(s0[at + k..at + k + n]) + t)
    ensures Rows(now, was, at, n, k + 1, v + Pow(k) * t)
  {
    hide Val, Pow, Makes;
    var pre, mid, mid' := s0[at..at + k], s0[at + k..at + k + n], s[at + k..at + k + n];
    RowAdded(pre, mid, mid', c, t);
    assert now[at..at + n + (k + 1)] == pre + mid' + [c];
    assert s0[at..at + n + k] == pre + mid;
  }

  lemma RowWeighs(x: seq<u32>, y: seq<u32>, k: nat)
    requires k < |y|
    ensures Val(x) * Val(y[..k + 1]) == Val(x) * Val(y[..k]) + Pow(k) * (y[k] * Val(x))
  {
    hide Val, Pow;
    assert y[..k + 1] == y[..k] + [y[k]];
    ValSnoc(y[..k], y[k]);
    Distribute(Val(x), Val(y[..k]), Pow(k) * y[k]);
    Rotate(Val(x), Pow(k), y[k]);
  }

  lemma Rotate(x: int, p: int, y: int)
    ensures x * (p * y) == p * (y * x)
  {}

  /** product = x * y, a row at a time. */
  method SimpleMultiply(product: array<u32>, at: nat, x: seq<u32>, y: seq<u32>)
    requires |x| == |y| > 0 && at + 2 * |x| <= product.Length
    modifies product
    ensures Same(product[..], old(product[..]), at, at + 2 * |x|)
    ensures Val(product[at..at + 2 * |x|]) == Val(x) * Val(y)
  {
    hide Rows, Val, Pow, Makes;
    var n := |x|;
    ghost var was := product[..];
    var c := Multiply32(product, at, x, y[0]);
    ghost var s, v := product[..], y[0] * Val(x);
    product[at + n] := c;
    FirstRow(product[..], s, was, at, n, c, v);
    FirstWeighs(x, y);
    var k: nat := 1;
    while k < n
      invariant 1 <= k <= n && Rows(product[..], was, at, n, k, v) && v == Val(x) * Val(y[..k])
    {
      ghost var s0, t := product[..], y[k] * Val(x);
      c := AddMultiply32(product, at + k, x, y[k]);
      ghost var s1 := product[..];
      product[at + k + n] := c;
      NextRow(product[..], s1, s0, was, at, n, k, c, v, t);
      RowWeighs(x, y, k);
      v := v + Pow(k) * t;
      k := k + 1;
    }
    RowsEnd(product[..], was, at, n, v);
    assert y[..n] == y;
  }

  lemma FirstWeighs(x: seq<u32>, y: seq<u32>)
    requires |y| > 0
    ensures y[0] * Val(x) == Val(x) * Val(y[..1])
  {
    assert y[..1] == [y[0]];
    ValOne(y[0]);
    Commute(y[0], Val(x));
  }

  lemma RowsEnd(now: seq<u32>, was: seq<u32>, at: nat, n: nat, v: int)
    requires Rows(now, was, at, n, n, v)
    ensures Same(now, was, at, at + 2 * n) && Val(now[at..at + 2 * n]) == v
  {}
}
