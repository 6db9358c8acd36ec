/** The Weyl column generator of src/fec/Wirehair.cpp: which columns a row of the check matrix uses. */
module ColumnIterator {

  ghost predicate Divides(d: nat, p: nat) {
    0 < d && p % d == 0
  }

  ghost predicate IsPrime(p: nat) {
    2 <= p && forall d: nat :: 2 <= d < p ==> !Divides(d, p)
  }

  /** What the source's seeding guarantees: a stride a in [1, b) and a modulus p >= b that fits 16 bits. */
  predicate Stride(a: nat, b: nat, p: nat) {
    1 <= a < b <= p < 0x1_0000
  }

  /** The first element of x+a, x+2a, ... (mod p) that is below b. */
  ghost function FirstInRange(x: nat, a: nat, b: nat, p: nat): (y: nat)
    requires Stride(a, b, p) && x < p
    ensures y < b
    decreases p - x
  {
    var y := (x + a) % p;
    if y < b then y else NoWrap(x, a, b, p); FirstInRange(y, a, b, p)
  }

  lemma NoWrap(x: nat, a: nat, b: nat, p: nat)
    requires Stride(a, b, p) && x < p && (x + a) % p >= b
    ensures (x + a) % p == x + a
  {
    ModTwice(x + a, p);
  }

  /** IterateNextColumn, branch for branch. */
  function NextColumn(x: nat, a: nat, b: nat, p: nat): (y: nat)
    requires Stride(a, b, p) && x < p
    ensures y < b
  {
    var y := (x + a) % p;
    if y < b then y
    else
      var distance := p - y;
      if a >= distance then a - distance else (a * 0x1_0000 - distance) % a
  }

  /** The loop-less step is the plain walk. */
  lemma NextColumnIsFirstInRange(x: nat, a: nat, b: nat, p: nat)
    requires Stride(a, b, p) && x < p
    ensures NextColumn(x, a, b, p) == FirstInRange(x, a, b, p)
  {
    var y := (x + a) % p;
    if y >= b {
      WalkToWrap(y, a, b, p);
    }
  }

  lemma {:induction false} QuotientUnique(a: nat, q: int, r: nat, q': int, r': nat)
    requires r < a && r' < a && q * a + r == q' * a + r'
    ensures q == q' && r == r'
  {
    if q < q' {
      MulStep(q, q', a);
    } else if q' < q {
      MulStep(q', q, a);
    }
  }

  lemma MulStep(q: int, q': int, a: nat)
    requires q < q'
    ensures q * a + a <= q' * a
  {
    assert q' * a == (q' - q - 1) * a + q * a + a;
  }

  lemma ModTwice(z: nat, p: nat)
    requires z < 2 * p
    ensures z % p == if z < p then z else z - p
  {
    ModIs(z, p, if z < p then 0 else 1, if z < p then z else z - p);
  }

  lemma {:induction false} ModIs(z: nat, a: nat, q: int, r: nat)
    requires 0 < a && r < a && z == q * a + r
    ensures z % a == r
  {
    QuotientUnique(a, q, r, z / a, z % a);
  }

  // From an out-of-range y the walk climbs by a until it passes p, and lands below a.
  lemma {:induction false} WalkToWrap(y: nat, a: nat, b: nat, p: nat)
    requires Stride(a, b, p) && b <= y < p
    ensures FirstInRange(y, a, b, p) == if a >= p - y then a - (p - y) else (a * 0x1_0000 - (p - y)) % a
    decreases p - y
  {
    var distance := p - y;
    if a >= distance {
      ModIs(y + a, p, 1, a - distance);
    } else {
      ModIs(y + a, p, 0, y + a);
      WalkToWrap(y + a, a, b, p);
      var rest := (a * 0x1_0000 - distance) % a;
      var q := (a * 0x1_0000 - distance) / a;
      if a >= distance - a {
        ModIs(a * 0x1_0000 - distance, a, 0xFFFE, 2 * a - distance);
      } else {
        assert a * 0x1_0000 - (distance - a) == (q + 1) * a + rest;
        ModIs(a * 0x1_0000 - (distance - a), a, q + 1, rest);
      }
    }
  }

  // ---- With p prime the step visits every column before it repeats one. ----

  ghost function At(x: nat, a: nat, p: nat, k: nat): nat
    requires 0 < p
  {
    (x + k * a) % p
  }

  // The steps j at which p divides j * a are closed under remainder.
  lemma {:induction false} DividesRemainder(p: nat, a: nat, k: nat, j: nat)
    requires 0 < p && 0 < j
    requires (k * a) % p == 0 && (j * a) % p == 0
    ensures ((k % j) * a) % p == 0
  {
    var q := k / j;
    var u, v := (k * a) / p, (j * a) / p;
    assert k == q * j + k % j;
    assert (k % j) * a == k * a - q * (j * a) by {
      assert (k - q * j) * a == k * a - (q * j) * a;
      assert (q * j) * a == q * (j * a);
    }
    assert q * (j * a) == q * (v * p) == (q * v) * p;
    assert (k % j) * a == (u - q * v) * p;
    MultipleIsZero((k % j) * a, p, u - q * v);
  }

  lemma {:induction false} MultipleIsZero(z: nat, p: nat, t: int)
    requires 0 < p && z == t * p
    ensures z % p == 0
  {
    ModIs(z, p, t, 0);
  }

  /** Euclid's lemma for the stride: p prime and 0 < a < p, so p | k*a only when p | k. */
  lemma {:induction false} Euclid(p: nat, a: nat, k: nat)
    requires IsPrime(p) && 0 < a < p && (k * a) % p == 0
    ensures k % p == 0
  {
    MultipleIsZero(p * a, p, a);
    var j := Least(p, a, p);
    DividesRemainder(p, a, p, j);
    assert Divides(j, p);
    assert j == 1 || j == p;
    ModIs(a, p, 0, a);
    assert 1 * a == a;
    DividesRemainder(p, a, k, j);
  }

  // The least positive j with p | j*a.
  lemma {:induction false} Least(p: nat, a: nat, bound: nat) returns (j: nat)
    requires 0 < p && 0 < bound && (bound * a) % p == 0
    ensures 0 < j <= bound && (j * a) % p == 0
    ensures forall i: nat :: 0 < i < j ==> (i * a) % p != 0
  {
    j := 1;
    while (j * a) % p != 0
      invariant 0 < j <= bound
      invariant forall i: nat :: 0 < i < j ==> (i * a) % p != 0
      decreases bound - j
    {
      j := j + 1;
    }
  }

  lemma {:induction false} Injective(x: nat, a: nat, p: nat, i: nat, k: nat)
    requires IsPrime(p) && 0 < a < p && i < k
    requires At(x, a, p, i) == At(x, a, p, k)
    ensures k - i >= p
  {
    var u, v := (x + i * a) / p, (x + k * a) / p;
    assert (k - i) * a == k * a - i * a == (v - u) * p;
    MultipleIsZero((k - i) * a, p, v - u);
    Euclid(p, a, k - i);
    assert (k - i) % p == 0;
    if k - i < p {
      ModIs(k - i, p, 0, k - i);
    }
  }

  ghost function Residues(x: nat, a: nat, p: nat, k: nat): (s: set<nat>)
    requires 0 < p
    ensures forall i: nat :: i < k ==> At(x, a, p, i) in s
    ensures forall y :: y in s ==> y < p && exists i: nat :: i < k && At(x, a, p, i) == y
  {
    if k == 0 then {} else Residues(x, a, p, k - 1) + {At(x, a, p, k - 1)}
  }

  lemma {:induction false} ResidueCount(x: nat, a: nat, p: nat, k: nat)
    requires IsPrime(p) && 0 < a < p && k <= p
    ensures |Residues(x, a, p, k)| == k
  {
    hide At, IsPrime;
    if k > 0 {
      ResidueCount(x, a, p, k - 1);
      var last := At(x, a, p, k - 1);
      if last in Residues(x, a, p, k - 1) {
        var i: nat :| i < k - 1 && At(x, a, p, i) == last;
        Injective(x, a, p, i, k - 1);
      }
    }
  }

  function Below(n: nat): (s: set<nat>)
    ensures forall y: nat :: y in s <==> y < n
    ensures |s| == n
  {
    if n == 0 then {} else Below(n - 1) + {n - 1}
  }

  lemma SubsetFull<T>(s: set<T>, t: set<T>)
    requires s <= t && |s| == |t|
    ensures s == t
  {
    assert |t| == |t - s| + |s|;
  }

  lemma SubsetSize<T>(s: set<T>, t: set<T>)
    requires s <= t
    ensures |s| <= |t|
  {
    assert |t| == |t - s| + |s|;
  }

  /** Every residue below p is met within the first p steps. */
  lemma {:induction false} Surjective(x: nat, a: nat, p: nat, y: nat) returns (k: nat)
    requires IsPrime(p) && 0 < a < p && y < p
    ensures k < p && At(x, a, p, k) == y
  {
    hide At;
    ResidueCount(x, a, p, p);
    SubsetFull(Residues(x, a, p, p), Below(p));
    assert y in Below(p);
    k :| k < p && At(x, a, p, k) == y;
  }

  /** The columns a row generator visits: `weight` steps from x. */
  function Columns(x: nat, a: nat, b: nat, p: nat, weight: nat): (s: seq<nat>)
    requires Stride(a, b, p) && x < b
    ensures |s| == weight
    ensures forall i :: 0 <= i < weight ==> s[i] < b
    ensures weight > 0 ==> s[0] == x
  {
    if weight == 0 then []
    else if weight == 1 then [x]
    else
      var s := Columns(x, a, b, p, weight - 1);
      s + [NextColumn(s[weight - 2], a, b, p)]
  }

  // FirstInRange from a step k stops at a later step k', and every step between is out of range.
  lemma {:induction false} StepCount(x: nat, a: nat, b: nat, p: nat, k: nat) returns (k': nat)
    requires Stride(a, b, p)
    ensures k < k' && At(x, a, p, k') == FirstInRange(At(x, a, p, k), a, b, p)
    ensures forall i: nat :: k < i < k' ==> At(x, a, p, i) >= b
    decreases p - At(x, a, p, k)
  {
    var y := At(x, a, p, k);
    StepOnce(x, a, p, k);
    if At(x, a, p, k + 1) < b {
      k' := k + 1;
    } else {
      NoWrap(y, a, b, p);
      k' := StepCount(x, a, b, p, k + 1);
    }
  }

  lemma {:induction false} StepOnce(x: nat, a: nat, p: nat, k: nat)
    requires 0 < p
    ensures At(x, a, p, k + 1) == (At(x, a, p, k) + a) % p
  {
    var q, r := (x + k * a) / p, (x + k * a) % p;
    assert (k + 1) * a == k * a + a;
    var q', r' := (r + a) / p, (r + a) % p;
    assert x + (k + 1) * a == (q + q') * p + r' by {
      assert (q + q') * p == q * p + q' * p;
    }
    ModIs(x + (k + 1) * a, p, q + q', r');
  }

  lemma AtZero(x: nat, a: nat, p: nat)
    requires x < p
    ensures At(x, a, p, 0) == x
  {
    ModIs(x, p, 0, x);
    assert 0 * a == 0;
  }

  // The columns s are the in-range residues met at steps 0 == steps[0] < steps[1] < ..., none skipped.
  ghost predicate Walk(x: nat, a: nat, b: nat, p: nat, s: seq<nat>, steps: seq<nat>)
    requires 0 < p
  {
    && |steps| == |s| > 0
    && steps[0] == 0
    && (forall i :: 0 <= i < |s| ==> At(x, a, p, steps[i]) == s[i])
    && (forall i, j :: 0 <= i < j < |s| ==> steps[i] < steps[j])
    && Seen(x, a, b, p, s[..|s| - 1], steps[|s| - 1])
  }

  // Every in-range residue met before step k is listed in s.
  ghost predicate Seen(x: nat, a: nat, b: nat, p: nat, s: seq<nat>, k: nat)
    requires 0 < p
  {
    forall i: nat :: i < k && At(x, a, p, i) < b ==> At(x, a, p, i) in s
  }

  // The next column of a walk shorter than b is new: a repeat needs p steps, and p steps meet all b columns.
  lemma {:induction false} WalkIsFresh(x: nat, a: nat, b: nat, p: nat, s: seq<nat>, steps: seq<nat>, k': nat)
    requires Stride(a, b, p) && IsPrime(p) && |s| < b
    requires Walk(x, a, b, p, s, steps) && steps[|s| - 1] < k'
    requires Seen(x, a, b, p, s, k')
    ensures At(x, a, p, k') !in s
  {
    hide At, IsPrime;
    if j :| 0 <= j < |s| && s[j] == At(x, a, p, k') {
      Injective(x, a, p, steps[j], k');
      AllMet(x, a, b, p, s, k' - 1);
    }
  }

  lemma {:induction false} WalkSteps(x: nat, a: nat, b: nat, p: nat, weight: nat) returns (steps: seq<nat>)
    requires Stride(a, b, p) && x < b && IsPrime(p) && 0 < weight <= b
    ensures Walk(x, a, b, p, Columns(x, a, b, p, weight), steps)
    ensures Distinct(Columns(x, a, b, p, weight))
  {
    hide At, NextColumn, FirstInRange, IsPrime;
    var s := Columns(x, a, b, p, weight);
    if weight == 1 {
      AtZero(x, a, p);
      steps := [0];
    } else {
      var init := Columns(x, a, b, p, weight - 1);
      assert s[..weight - 1] == init;
      var before := WalkSteps(x, a, b, p, weight - 1);
      var k' := WalkNext(x, a, b, p, init, before);
      steps := before + [k'];
      WalkIsFresh(x, a, b, p, init, before, k');
      WalkExtend(x, a, b, p, init, before, k');
    }
  }

  lemma {:induction false} WalkExtend(x: nat, a: nat, b: nat, p: nat, s: seq<nat>, steps: seq<nat>, k': nat)
    requires 0 < p && Walk(x, a, b, p, s, steps) && steps[|s| - 1] < k' && Seen(x, a, b, p, s, k')
    ensures Walk(x, a, b, p, s + [At(x, a, p, k')], steps + [k'])
  {
    hide At;
    var s' := s + [At(x, a, p, k')];
    assert s'[..|s|] == s;
  }

  /** The columns as the loops meet them: each is the iterator's successor of the one before. */
  lemma {:induction false} ColumnsStep(x: nat, a: nat, b: nat, p: nat, weight: nat, i: nat)
    requires Stride(a, b, p) && x < b && i + 1 < weight
    ensures Columns(x, a, b, p, weight)[i + 1] == NextColumn(Columns(x, a, b, p, weight)[i], a, b, p)
  {
    if i + 2 < weight {
      ColumnsStep(x, a, b, p, weight - 1, i);
    }
  }

  lemma {:induction false} WalkNext(x: nat, a: nat, b: nat, p: nat, s: seq<nat>, steps: seq<nat>) returns (k': nat)
    requires Stride(a, b, p) && Walk(x, a, b, p, s, steps) && s[|s| - 1] < p
    ensures steps[|s| - 1] < k' && At(x, a, p, k') == NextColumn(s[|s| - 1], a, b, p)
    ensures Seen(x, a, b, p, s, k')
    ensures forall i: nat :: steps[|s| - 1] < i < k' ==> At(x, a, p, i) >= b
  {
    hide At, NextColumn, FirstInRange;
    var last := |s| - 1;
    NextColumnIsFirstInRange(s[last], a, b, p);
    k' := StepCount(x, a, b, p, steps[last]);
    forall i: nat | i < k' && At(x, a, p, i) < b ensures At(x, a, p, i) in s {
      if i < steps[last] {
        assert At(x, a, p, i) in s[..last];
      } else if i == steps[last] {
        assert At(x, a, p, i) == s[last];
      }
    }
  }

  // p steps meet every column, so fewer than b columns cannot cover them.
  lemma {:induction false} AllMet(x: nat, a: nat, b: nat, p: nat, s: seq<nat>, k: nat)
    requires Stride(a, b, p) && IsPrime(p) && p - 1 <= k
    requires forall i: nat :: i <= k && At(x, a, p, i) < b ==> At(x, a, p, i) in s
    ensures |s| >= b
  {
    forall y | y in Below(b) ensures y in s {
      var i := Surjective(x, a, p, y);
    }
    var elems := set y | y in s;
    SubsetSize(Below(b), elems);
    SeqSetSize(s, elems);
  }

  lemma {:induction false} SeqSetSize(s: seq<nat>, elems: set<nat>)
    requires elems == set y | y in s
    ensures |elems| <= |s|
  {
    if s == [] {
      assert elems == {};
    } else {
      var rest := set y | y in s[1..];
      SeqSetSize(s[1..], rest);
      assert elems == rest + {s[0]};
    }
  }

  ghost predicate Distinct<T>(s: seq<T>) {
    forall i, j :: 0 <= i < j < |s| ==> s[i] != s[j]
  }

  /** Any weight up to b selects distinct columns. */
  lemma ColumnsDistinct(x: nat, a: nat, b: nat, p: nat, weight: nat)
    requires Stride(a, b, p) && x < b && IsPrime(p) && weight <= b
    ensures Distinct(Columns(x, a, b, p, weight))
  {
    if weight > 0 {
      var steps := WalkSteps(x, a, b, p, weight);
    }
  }

  lemma {:induction false} DistinctSize(s: seq<nat>, elems: set<nat>)
    requires Distinct(s) && elems == set y | y in s
    ensures |elems| == |s|
  {
    if s == [] {
      assert elems == {};
    } else {
      var rest := set y | y in s[1..];
      DistinctSize(s[1..], rest);
      assert elems == rest + {s[0]};
      assert s[0] !in rest;
    }
  }

  lemma {:induction false} DistinctFull(s: seq<nat>, b: nat)
    requires Distinct(s) && |s| == b && forall i :: 0 <= i < b ==> s[i] < b
    ensures forall y: nat :: y < b ==> y in s
  {
    var elems := set y | y in s;
    DistinctSize(s, elems);
    assert elems <= Below(b);
    SubsetFull(elems, Below(b));
    forall y: nat | y < b ensures y in s {
      assert y in Below(b);
      assert y in elems;
    }
  }

  /** b steps are one full cycle: they list every column once and the next step is back at the start. */
  lemma {:induction false} ColumnsCycle(x: nat, a: nat, b: nat, p: nat)
    requires Stride(a, b, p) && x < b && IsPrime(p)
    ensures forall y: nat :: y < b <==> y in Columns(x, a, b, p, b)
    ensures NextColumn(Columns(x, a, b, p, b)[b - 1], a, b, p) == x
  {
    hide At, NextColumn, FirstInRange, IsPrime, Columns;
    var s := Columns(x, a, b, p, b);
    var steps := WalkSteps(x, a, b, p, b);
    DistinctFull(s, b);
    var k' := WalkNext(x, a, b, p, s, steps);
    var y := NextColumn(s[b - 1], a, b, p);
    assert y in s;
    var j :| 0 <= j < b && s[j] == y;
    if j > 0 {
      Injective(x, a, p, steps[j], k');
      ReturnIsSeen(x, a, b, p, s, steps, k');
    }
  }

  lemma FullTurn(x: nat, a: nat, p: nat)
    requires x < p
    ensures At(x, a, p, p) == x
  {
    ModIs(x + p * a, p, a, x);
  }

  // A walk that runs past step p has met x again, so its first b-1 columns already cover all of them.
  lemma {:induction false} ReturnIsSeen(x: nat, a: nat, b: nat, p: nat, s: seq<nat>, steps: seq<nat>, k': nat)
    requires Stride(a, b, p) && x < b && IsPrime(p) && |s| == b && s[0] == x
    requires Walk(x, a, b, p, s, steps) && Distinct(s)
    requires forall i: nat :: steps[b - 1] < i < k' ==> At(x, a, p, i) >= b
    ensures k' <= p
  {
    FullTurn(x, a, p);
    hide At, IsPrime;
    if p < k' {
      assert s[0] != s[b - 1];
      assert p < steps[b - 1];
      AllMet(x, a, b, p, s[..b - 1], steps[b - 1] - 1);
    }
  }
}
