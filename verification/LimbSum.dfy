/** Sums, differences and shifts of multi-precision numbers, in place (_attic_/BigInt.cpp). A const operand is
    given by its limbs; an operand that is written is an array, a first position and a limb count. */
module LimbSum {
  import opened Limbs

  function Min(x: nat, y: nat): nat {
    if x < y then x else y
  }

  /** After i = |d| limbs of x plus m times y, d has been written and c is the carry. */
  ghost predicate Summed(d: seq<u32>, x: seq<u32>, y: seq<u32>, m: int, c: int) {
    && |d| <= |x|
    && Val(d) + Pow(|d|) * c == Val(x[..|d|]) + m * Val(y[..Min(|d|, |y|)])
  }

  lemma SummedStep(d: seq<u32>, x: seq<u32>, y: seq<u32>, m: int, c: int, r: int)
    requires Summed(d, x, y, m, c) && |d| < |x|
    requires r == x[|d|] + (if |d| < |y| then m * y[|d|] else 0) + c
    ensures Summed(d + [r % B], x, y, m, r / B)
  {
    var i := |d|;
    var p := Pow(i);
    ValSnoc(d, r % B);
    ValSnoc(x[..i], x[i]);
    assert x[..i + 1] == x[..i] + [x[i]];
    if i < |y| {
      ValSnoc(y[..i], y[i]);
      assert y[..i + 1] == y[..i] + [y[i]];
      CarryStep(p, c, x[i], m * y[i], r);
      Scaled(m, Val(y[..i]), p, y[i]);
    } else {
      CarryStep(p, c, x[i], 0, r);
    }
  }

  lemma Scaled(m: int, v: int, p: int, y: int)
    ensures m * (v + p * y) == m * v + p * (m * y)
  {
    Distribute(m, v, p * y);
    Regroup(m, p, y);
    Regroup(p, m, y);
  }

  /** The buffer, before and after i limbs of x + m * y have been put at position `at`. */
  ghost predicate Going(now: seq<u32>, was: seq<u32>, at: nat, i: nat, x: seq<u32>, y: seq<u32>, m: int, c: int) {
    at + |x| <= |was| && i <= |x| && Same(now, was, at, at + i) && Summed(now[at..at + i], x, y, m, c)
  }

  lemma GoingStart(was: seq<u32>, at: nat, x: seq<u32>, y: seq<u32>, m: int)
    requires at + |x| <= |was|
    ensures Going(was, was, at, 0, x, y, m, 0)
  {
    assert was[at..at + 0] == x[..0] == y[..0] == [];
  }

  lemma GoingStep(now: seq<u32>, was: seq<u32>, at: nat, i: nat, x: seq<u32>, y: seq<u32>, m: int, c: int, r: int)
    requires Going(now, was, at, i, x, y, m, c) && i < |x|
    requires r == x[i] + (if i < |y| then m * y[i] else 0) + c
    ensures Going(now[at + i := r % B], was, at, i + 1, x, y, m, r / B)
  {
    hide Summed, Val;
    var d := now[at..at + i];
    SummedStep(d, x, y, m, c, r);
    assert now[at + i := r % B][at..at + (i + 1)] == d + [r % B];
  }

  /** In place, the limbs still to come are the buffer's. */
  lemma InPlace(now: seq<u32>, was: seq<u32>, at: nat, i: nat, x: seq<u32>, y: seq<u32>, m: int, c: int)
    requires Going(now, was, at, i, x, y, m, c) && x == was[at..at + |x|]
    ensures i < |x| ==> now[at + i] == x[i]
  {}

  /** At the end, or in place where the carry has died, the whole is summed. */
  lemma GoingEnd(now: seq<u32>, was: seq<u32>, at: nat, i: nat, x: seq<u32>, y: seq<u32>, m: int, c: int)
    requires Going(now, was, at, i, x, y, m, c) && |y| <= i
    requires i == |x| || (c == 0 && x == was[at..at + |x|])
    ensures Same(now, was, at, at + |x|) && Makes(now[at..at + |x|], c, Val(x) + m * Val(y))
  {
    hide Summed, Val, Pow, Makes;
    var d := now[at..at + i];
    if i == |x| {
      SummedFull(d, x, y, m, c);
    } else {
      SummedAll(d, x, y, m);
      MakesAll(d + x[i..], Val(x) + m * Val(y));
      assert now[at..at + |x|] == d + x[i..];
    }
  }

  lemma SummedFull(d: seq<u32>, x: seq<u32>, y: seq<u32>, m: int, c: int)
    requires Summed(d, x, y, m, c) && |y| <= |d| == |x|
    ensures Makes(d, c, Val(x) + m * Val(y))
  {
    assert x[..|d|] == x && y[..|y|] == y;
  }

  lemma SummedAll(d: seq<u32>, x: seq<u32>, y: seq<u32>, m: int)
    requires Summed(d, x, y, m, 0) && |y| <= |d|
    ensures Val(d + x[|d|..]) == Val(x) + m * Val(y)
  {
    ValAppend(d, x[|d|..]);
    ValSplit(x, |d|);
    assert y[..|y|] == y;
  }

  /** lhs += rhs; the carry out. */
  method Add(lhs: array<u32>, at: nat, n: nat, rhs: seq<u32>) returns (carry: u32)
    requires at + n <= lhs.Length && 0 < |rhs| <= n
    modifies lhs
    ensures Same(lhs[..], old(lhs[..]), at, at + n)
    ensures Makes(lhs[at..at + n], carry, old(Val(lhs[at..at + n])) + Val(rhs)) && carry <= 1
  {
    hide Going, Val, Pow, Makes;
    ghost var s, x := lhs[..], lhs[at..at + n];
    GoingStart(s, at, x, rhs, 1);
    var r := (lhs[at] as int) + rhs[0];
    GoingStep(s, s, at, 0, x, rhs, 1, 0, r);
    lhs[at] := r % B;
    var ii: nat := 1;
    while ii < |rhs|
      invariant 1 <= ii <= |rhs| && 0 <= r < 2 * B && Going(lhs[..], s, at, ii, x, rhs, 1, r / B)
    {
      InPlace(lhs[..], s, at, ii, x, rhs, 1, r / B);
      ghost var now, c := lhs[..], r / B;
      r := (lhs[at + ii] as int) + rhs[ii] + r / B;
      GoingStep(now, s, at, ii, x, rhs, 1, c, r);
      lhs[at + ii] := r % B;
      ii := ii + 1;
    }
    while ii < n
      invariant |rhs| <= ii <= n && 0 <= r < 2 * B && Going(lhs[..], s, at, ii, x, rhs, 1, r / B)
    {
      InPlace(lhs[..], s, at, ii, x, rhs, 1, r / B);
      r := r / B;
      if r == 0 {
        break;
      }
      ghost var now, c := lhs[..], r;
      r := r + lhs[at + ii];
      GoingStep(now, s, at, ii, x, rhs, 1, c, r);
      lhs[at + ii] := r % B;
      ii := ii + 1;
    }
    carry := r / B;
    GoingEnd(lhs[..], s, at, ii, x, rhs, 1, carry);
  }

  /** lhs -= rhs; the borrow out, as 0 or -1. */
  method Subtract(lhs: array<u32>, at: nat, n: nat, rhs: seq<u32>) returns (carry: int)
    requires at + n <= lhs.Length && 0 < |rhs| <= n
    modifies lhs
    ensures Same(lhs[..], old(lhs[..]), at, at + n)
    ensures Makes(lhs[at..at + n], carry, old(Val(lhs[at..at + n])) - Val(rhs)) && -1 <= carry <= 0
  {
    hide Going, Val, Pow, Makes;
    ghost var s, x := lhs[..], lhs[at..at + n];
    GoingStart(s, at, x, rhs, -1);
    var r := (lhs[at] as int) - rhs[0];
    GoingStep(s, s, at, 0, x, rhs, -1, 0, r);
    lhs[at] := r % B;
    var ii: nat := 1;
    while ii < |rhs|
      invariant 1 <= ii <= |rhs| && -B <= r < B && Going(lhs[..], s, at, ii, x, rhs, -1, r / B)
    {
      InPlace(lhs[..], s, at, ii, x, rhs, -1, r / B);
      ghost var now, c := lhs[..], r / B;
      r := (lhs[at + ii] as int) - rhs[ii] + r / B;
      GoingStep(now, s, at, ii, x, rhs, -1, c, r);
      lhs[at + ii] := r % B;
      ii := ii + 1;
    }
    while ii < n
      invariant |rhs| <= ii <= n && -B <= r < B && Going(lhs[..], s, at, ii, x, rhs, -1, r / B)
    {
      InPlace(lhs[..], s, at, ii, x, rhs, -1, r / B);
      r := r / B;
      if r == 0 {
        break;
      }
      ghost var now, c := lhs[..], r;
      r := r + lhs[at + ii];
      GoingStep(now, s, at, ii, x, rhs, -1, c, r);
      lhs[at + ii] := r % B;
      ii := ii + 1;
    }
    carry := r / B;
    GoingEnd(lhs[..], s, at, ii, x, rhs, -1, carry);
  }

  /** Where the out-of-place addition stops: the first place past rhs where nothing is carried, or the end of lhs. */
  function Stop(lhs: seq<u32>, rhs: seq<u32>): (k: nat)
    requires |rhs| <= |lhs|
    ensures |rhs| <= k <= |lhs|
  {
    StopFrom(lhs, rhs, |rhs|)
  }

  function StopFrom(lhs: seq<u32>, rhs: seq<u32>, i: nat): (k: nat)
    requires |rhs| <= i <= |lhs|
    ensures i <= k <= |lhs|
    decreases |lhs| - i
  {
    if i == |lhs| || Val(lhs[..i]) + Val(rhs) < Pow(i) then i else StopFrom(lhs, rhs, i + 1)
  }

  /** out = lhs + rhs; the carry out. Once the carry dies above rhs, the code stops: the limbs of lhs from there on are
      not copied, and the buffer holds the sum exactly when it held them already. */
  method AddTo(out: array<u32>, at: nat, lhs: seq<u32>, rhs: seq<u32>) returns (carry: u32)
    requires at + |lhs| <= out.Length && 0 < |rhs| <= |lhs|
    modifies out
    ensures carry <= 1 && (Stop(lhs, rhs) < |lhs| ==> carry == 0)
    ensures Same(out[..], old(out[..]), at, at + Stop(lhs, rhs))
    ensures Makes(out[at..at + Stop(lhs, rhs)], carry, Val(lhs[..Stop(lhs, rhs)]) + Val(rhs))
    ensures Makes(out[at..at + |lhs|], carry, Val(lhs) + Val(rhs)) <==>
            old(out[..])[at + Stop(lhs, rhs)..at + |lhs|] == lhs[Stop(lhs, rhs)..]
  {
    hide Going, Val, Pow, Makes, StopFrom;
    ghost var s := out[..];
    GoingStart(s, at, lhs, rhs, 1);
    var r := (lhs[0] as int) + rhs[0];
    GoingStep(s, s, at, 0, lhs, rhs, 1, 0, r);
    out[at] := r % B;
    var ii: nat := 1;
    while ii < |rhs|
      invariant 1 <= ii <= |rhs| && 0 <= r < 2 * B && Going(out[..], s, at, ii, lhs, rhs, 1, r / B)
    {
      ghost var now, c := out[..], r / B;
      r := (lhs[ii] as int) + rhs[ii] + r / B;
      GoingStep(now, s, at, ii, lhs, rhs, 1, c, r);
      out[at + ii] := r % B;
      ii := ii + 1;
    }
    while ii < |lhs|
      invariant |rhs| <= ii <= |lhs| && 0 <= r < 2 * B && Going(out[..], s, at, ii, lhs, rhs, 1, r / B)
      invariant Stop(lhs, rhs) == StopFrom(lhs, rhs, ii)
    {
      r := r / B;
      StopsHere(out[..], s, at, ii, lhs, rhs, r);
      if r == 0 {
        break;
      }
      ghost var now, c := out[..], r;
      r := r + lhs[ii];
      GoingStep(now, s, at, ii, lhs, rhs, 1, c, r);
      out[at + ii] := r % B;
      ii := ii + 1;
    }
    carry := r / B;
    StopAtEnd(lhs, rhs);
    GoingStopped(out[..], s, at, ii, lhs, rhs, carry);
    ghost var sum := out[at..at + |lhs|];
    assert sum[..ii] == out[at..at + ii] && sum[ii..] == s[at + ii..at + |lhs|];
    SumIsWhole(sum, lhs, rhs, ii, carry);
  }

  /** The carry is zero exactly where the sum so far needs no further limb. */
  lemma StopsHere(now: seq<u32>, was: seq<u32>, at: nat, i: nat, x: seq<u32>, y: seq<u32>, c: int)
    requires Going(now, was, at, i, x, y, 1, c) && |y| <= i < |x| && 0 <= c
    ensures StopFrom(x, y, i) == if c == 0 then i else StopFrom(x, y, i + 1)
  {
    hide Going, Val, Pow;
    GoingShape(now, was, at, i, x, y, c);
    GoingStopped(now, was, at, i, x, y, c);
    ValBound(now[at..at + i]);
    MulLess(Pow(i), c, 1);
    MulLess(Pow(i), 0, 1);
  }

  lemma GoingShape(now: seq<u32>, was: seq<u32>, at: nat, i: nat, x: seq<u32>, y: seq<u32>, c: int)
    requires Going(now, was, at, i, x, y, 1, c)
    ensures at + i <= |now| && |now[at..at + i]| == i
  {}

  lemma StopAtEnd(lhs: seq<u32>, rhs: seq<u32>)
    requires |rhs| <= |lhs|
    ensures StopFrom(lhs, rhs, |lhs|) == |lhs|
  {}

  lemma GoingStopped(now: seq<u32>, was: seq<u32>, at: nat, i: nat, x: seq<u32>, y: seq<u32>, c: int)
    requires Going(now, was, at, i, x, y, 1, c) && |y| <= i
    ensures Same(now, was, at, at + i) && Makes(now[at..at + i], c, Val(x[..i]) + Val(y))
  {
    hide Summed, Makes, Val, Pow;
    SummedStopped(now[at..at + i], x, y, c);
  }

  lemma SummedStopped(d: seq<u32>, x: seq<u32>, y: seq<u32>, c: int)
    requires Summed(d, x, y, 1, c) && |y| <= |d|
    ensures Makes(d, c, Val(x[..|d|]) + Val(y))
  {
    assert y[..|y|] == y;
  }

  /** The sum is whole exactly when the limbs left alone are those of lhs. */
  lemma SumIsWhole(out: seq<u32>, lhs: seq<u32>, rhs: seq<u32>, done: nat, carry: u32)
    requires |out| == |lhs| && done <= |lhs| && (done < |lhs| ==> carry == 0)
    requires Makes(out[..done], carry, Val(lhs[..done]) + Val(rhs))
    ensures Makes(out, carry, Val(lhs) + Val(rhs)) <==> out[done..] == lhs[done..]
  {
    hide Val, Pow, Makes;
    if done == |lhs| {
      assert out[done..] == lhs[done..] == [];
      assert out[..done] == out && lhs[..done] == lhs;
    } else {
      MakesAll(out[..done], Val(lhs[..done]) + Val(rhs));
      MakesAll(out, Val(lhs) + Val(rhs));
      UpperLimbs(out, lhs, Val(rhs), done);
    }
  }

  lemma UpperLimbs(out: seq<u32>, lhs: seq<u32>, v: nat, done: nat)
    requires |out| == |lhs| && done <= |lhs| && Val(out[..done]) == Val(lhs[..done]) + v
    ensures Val(out) == Val(lhs) + v <==> out[done..] == lhs[done..]
  {
    hide Val, Pow;
    ValSplit(out, done);
    ValSplit(lhs, done);
    Cancel(Pow(done), Val(out[done..]), Val(lhs[done..]));
    if Val(out[done..]) == Val(lhs[done..]) {
      ValUnique(out[done..], lhs[done..]);
    }
  }

  /** So the sum is right whatever the buffer held exactly when the addition runs to the end of lhs. */
  lemma RightWhateverHeld(lhs: seq<u32>, rhs: seq<u32>)
    requires 0 < |rhs| <= |lhs|
    ensures (forall was: seq<u32> :: |was| == |lhs| ==> was[Stop(lhs, rhs)..] == lhs[Stop(lhs, rhs)..]) <==>
            Stop(lhs, rhs) == |lhs|
  {
    var k := Stop(lhs, rhs);
    if k < |lhs| {
      var was := lhs[k := if lhs[k] == 0 then 1 else 0];
      assert was[k..][0] != lhs[k..][0];
    }
  }

  /** A sum that is not: 5 + B plus 6 into a buffer whose second limb is 7 leaves 11 and 7. */
  method StaleLimb() returns (out: array<u32>, carry: u32)
    ensures fresh(out) && carry == 0 && out[..] == [11, 7] && Val(out[..]) != Val([5, 1]) + Val([6])
  {
    hide Val, Stop;
    out := new u32[] [0, 7];
    StopsAfterOne();
    carry := AddTo(out, 0, [5, 1], [6]);
    assert out[0..0 + 1] == [out[0]] && [5, 1][..1] == [5];
    MakesAll([out[0]], 11);
    ValOne(out[0]);
    ValTwo(11, 7);
    ValTwo(5, 1);
  }

  lemma StopsAfterOne()
    ensures Stop([5, 1], [6]) == 1 && Val([5]) == 5 && Val([6]) == 6
  {
    assert [5, 1][..1] == [5];
    ValOne(5);
    ValOne(6);
    assert Pow(1) == B;
  }

  lemma ValTwo(x: u32, y: u32)
    ensures Val([x, y]) == x + B * y
  {
    assert [x, y][1..] == [y];
    ValOne(y);
  }

  /** Copies limbs. */
  method Set(out: array<u32>, at: nat, inp: seq<u32>)
    requires at + |inp| <= out.Length
    modifies out
    ensures Same(out[..], old(out[..]), at, at + |inp|) && out[at..at + |inp|] == inp
  {
    forall i | 0 <= i < |inp| {
      out[at + i] := inp[i];
    }
  }

  /** An unsigned sum has wrapped exactly when it is below an operand. */
  lemma Wraps(x: u32, y: u32)
    ensures (x as int + y) / B == if (x as int + y) % B >= y then 0 else 1
  {}

  /** lhs += a limb; the carry out. */
  method Add32(lhs: array<u32>, at: nat, n: nat, rhs: u32) returns (carry: u32)
    requires at + n <= lhs.Length && n > 0
    modifies lhs
    ensures Same(lhs[..], old(lhs[..]), at, at + n)
    ensures Makes(lhs[at..at + n], carry, old(Val(lhs[at..at + n])) + rhs) && carry <= 1
  {
    hide Going, Val, Pow, Makes;
    ghost var s, x, y := lhs[..], lhs[at..at + n], [rhs];
    ValOne(rhs);
    GoingStart(s, at, x, y, 1);
    ghost var r := (lhs[at] as int) + rhs;
    GoingStep(s, s, at, 0, x, y, 1, 0, r);
    Wraps(lhs[at], rhs);
    lhs[at] := ((lhs[at] as int) + rhs) % B;
    if lhs[at] >= rhs {
      GoingEnd(lhs[..], s, at, 1, x, y, 1, 0);
      return 0;
    }
    var ii: nat := 1;
    while ii < n
      invariant 1 <= ii <= n && Going(lhs[..], s, at, ii, x, y, 1, 1)
    {
      InPlace(lhs[..], s, at, ii, x, y, 1, 1);
      GoingStep(lhs[..], s, at, ii, x, y, 1, 1, (x[ii] as int) + 1);
      lhs[at + ii] := ((lhs[at + ii] as int) + 1) % B;
      ii := ii + 1;
      if lhs[at + ii - 1] != 0 {
        GoingEnd(lhs[..], s, at, ii, x, y, 1, 0);
        return 0;
      }
    }
    GoingEnd(lhs[..], s, at, ii, x, y, 1, 1);
    return 1;
  }
}
