/** Exponentiation in the Montgomery domain, bit by bit and by sliding windows (_attic_/BigInt.cpp:1529-1760). */
module Exponent {
  import opened Limbs
  import opened LimbSum
  import opened LimbShift
  import opened Modular
  import opened Montgomery
  import opened Reduction
  import Karatsuba
  import LongDivision
  import Squares

  // ---- Powers ----

  /** The limbs stand for b to the e. */
  ghost predicate Holds(x: seq<u32>, modulus: seq<u32>, b: int, e: nat) {
    Val(modulus) > 0 && Mean(Val(x), Val(modulus), |modulus|) == Power(b, e) % Val(modulus)
  }

  lemma HoldsBase(x: seq<u32>, modulus: seq<u32>)
    requires Val(modulus) > 0
    ensures Holds(x, modulus, Mean(Val(x), Val(modulus), |modulus|), 1)
  {
    hide Mean, Val;
    var m := Mean(Val(x), Val(modulus), |modulus|);
    assert Power(m, 1) == m * Power(m, 0) == m;
    DivModIs(m, Val(modulus), 0, m);
  }

  /** Reducing a product adds the exponents. */
  lemma HoldsProduct(r: seq<u32>, x: seq<u32>, y: seq<u32>, modulus: seq<u32>, b: int, e: nat, f: nat)
    requires |modulus| > 0 && modulus[0] % 2 == 1 && Holds(x, modulus, b, e) && Holds(y, modulus, b, f)
    requires Reduced(Val(r), Val(x) * Val(y), Val(modulus), |modulus|)
    ensures Holds(r, modulus, b, e + f)
  {
    hide Val, Pow, Mean, Power;
    var m, n := Val(modulus), |modulus|;
    OddModulus(modulus);
    MeanProduct(Val(r), Val(x), Val(y), m, n);
    CongMod(Power(b, e), m);
    CongMod(Power(b, f), m);
    CongProduct(Power(b, e) % m, Power(b, f) % m, Power(b, e), Power(b, f), m);
    SameMod((Power(b, e) % m) * (Power(b, f) % m), Power(b, e) * Power(b, f), m);
    PowerSum(b, e, f);
  }

  /** The power of a residue of b is the residue of the power of b. */
  lemma {:induction false} PowerOfResidue(b: int, c: int, e: nat, m: int)
    requires m > 0 && Cong(b, c, m)
    ensures Cong(Power(b, e), Power(c, e), m)
  {
    if e == 0 {
      CongBy(1, 1, m, 0);
    } else {
      PowerOfResidue(b, c, e - 1, m);
      CongProduct(b, Power(b, e - 1), c, Power(c, e - 1), m);
    }
  }

  /** In at b times R, raised, and finished: b to the e. */
  lemma ExponentiationIsExact(base: seq<u32>, x: seq<u32>, finished: nat, modulus: seq<u32>, b: int, e: nat)
    requires |modulus| > 0 && modulus[0] % 2 == 1 && Val(modulus) > 0
    requires Cong(Val(base), b * Pow(|modulus|), Val(modulus))
    requires Holds(x, modulus, Mean(Val(base), Val(modulus), |modulus|), e)
    requires finished == Mean(Val(x), Val(modulus), |modulus|)
    ensures finished == Power(b, e) % Val(modulus)
  {
    hide Val, Pow, Mean, Power;
    var m, n := Val(modulus), |modulus|;
    OddModulus(modulus);
    MeanOfResidue(Val(base), b, m, n);
    CongMod(b, m);
    PowerOfResidue(b % m, b, e, m);
    SameMod(Power(b % m, e), Power(b, e), m);
  }

  // ---- Multiplying and squaring ----

  predicate Buffers(modulus: seq<u32>, modInv: u32, result: array<u32>, temp: array<u32>) {
    Prepared(modulus, modInv) && |modulus| >= 2 && result.Length == |modulus| && temp.Length == 2 * |modulus|
    && result != temp
  }

  /** result = result squared. */
  method SquareOnce(result: array<u32>, temp: array<u32>, modulus: seq<u32>, modInv: u32, ghost b: int, ghost e: nat)
    requires Buffers(modulus, modInv, result, temp) && Holds(result[..], modulus, b, e)
    modifies result, temp
    ensures Holds(result[..], modulus, b, 2 * e)
  {
    hide Val, Pow, Holds, Reduced;
    ghost var x := result[..];
    Squares.Square(temp, 0, result[..]);
    MonReduce(temp, 0, modulus, modInv, result, 0);
    assert result[0..0 + |modulus|] == result[..];
    HoldsProduct(result[..], x, x, modulus, b, e, e);
  }

  /** result *= a factor. */
  method TimesFactor(result: array<u32>, temp: array<u32>, factor: seq<u32>, modulus: seq<u32>, modInv: u32,
                     ghost b: int, ghost e: nat, ghost f: nat)
    requires Buffers(modulus, modInv, result, temp) && |factor| == |modulus|
    requires Holds(result[..], modulus, b, e) && Holds(factor, modulus, b, f)
    modifies result, temp
    ensures Holds(result[..], modulus, b, e + f)
  {
    hide Val, Pow, Holds, Reduced;
    ghost var x := result[..];
    Karatsuba.Multiply(temp, 0, result[..], factor);
    MonReduce(temp, 0, modulus, modInv, result, 0);
    assert result[0..0 + |modulus|] == result[..];
    HoldsProduct(result[..], x, factor, modulus, b, e, f);
  }

  /** c squarings. */
  method SquareTimes(result: array<u32>, temp: array<u32>, modulus: seq<u32>, modInv: u32, c: nat, ghost b: int,
                     ghost e: nat)
    requires Buffers(modulus, modInv, result, temp) && Holds(result[..], modulus, b, e)
    modifies result, temp
    ensures Holds(result[..], modulus, b, e * Two(c))
  {
    hide Val, Holds, Two;
    var ctr: nat := c;
    ghost var f := e;
    TwoZero();
    while ctr > 0
      invariant ctr <= c && f == e * Two(c - ctr) && Holds(result[..], modulus, b, f)
    {
      SquareOnce(result, temp, modulus, modInv, b, f);
      TwoNext(c - ctr);
      Rotate3(e, 2, Two(c - ctr));
      f := 2 * f;
      ctr := ctr - 1;
    }
  }

  lemma TwoNext(k: nat)
    ensures Two(k + 1) == 2 * Two(k)
  {}

  // ---- The bits of the exponent ----

  /** Before the bit of weight 2 to the t is processed, the bits above it make this number. */
  function Top(v: nat, t: nat): nat {
    NotNegative(v, Two(t));
    v / Two(t)
  }

  lemma NotNegative(v: nat, p: nat)
    requires p > 0
    ensures v / p >= 0
  {
    DivMod(v, p);
    MulLess(p, -1, v / p);
  }

  /** The next bit of the exponent is a bit of its limb. */
  lemma NextBit(exponent: seq<u32>, ii: nat, k: nat)
    requires ii < |exponent| && k < 32
    ensures Top(Val(exponent), 32 * ii + k) == 2 * Top(Val(exponent), 32 * ii + k + 1) + (exponent[ii] / Two(k)) % 2
  {
    hide Val, Pow, Two;
    var v, e, high := Val(exponent), exponent[ii], Val(exponent[ii + 1..]);
    ValSplit(exponent, ii);
    ValBound(exponent[..ii]);
    assert exponent[ii..] == [e] + exponent[ii + 1..];
    ValCons(e, exponent[ii + 1..]);
    PowTwos(ii);
    TopLimbs(v, Val(exponent[..ii]), e, high, ii, k);
    TopLimbs(v, Val(exponent[..ii]), e, high, ii, k + 1);
    TwoNext(k);
    TwoNext(32 - (k + 1));
    HalfBit(e, Two(k));
    Regroup(2, Two(32 - (k + 1)), high);
  }

  lemma HalfBit(e: int, p: int)
    requires p > 0
    ensures e / p == 2 * (e / (2 * p)) + (e / p) % 2
  {
    var q := e / (2 * p);
    DivMod(e, 2 * p);
    Regroup(2, p, q);
    Rotate3(p, 2, q);
    var r := e % (2 * p);
    if r < p {
      DivModIs(e, p, 2 * q, r);
    } else {
      Distribute(p, 2 * q, 1);
      DivModIs(e, p, 2 * q + 1, r - p);
    }
  }

  /** The bits from bit k of limb ii up: those of the limb, and the limbs above it. */
  lemma TopLimbs(v: nat, low: nat, e: u32, high: nat, ii: nat, k: nat)
    requires k <= 32 && low < Two(32 * ii) && v == low + Two(32 * ii) * (e + B * high)
    ensures Top(v, 32 * ii + k) == e / Two(k) + Two(32 - k) * high
  {
    hide Two;
    var p, q, r := Two(32 * ii), Two(k), Two(32 - k);
    TwoSum(32 * ii, k);
    TwoB(k);
    DivMod(e, q);
    Regroup(q, r, high);
    Distribute(q, e / q, r * high);
    var t := e / q + r * high;
    assert e + B * high == q * t + e % q;
    Distribute(p, q * t, e % q);
    Regroup(p, q, t);
    MulAtMost(p, e % q, q - 1);
    Distribute(p, q, -1);
    MulAtMost(p, 0, e % q);
    DivModIs(v, p * q, t, low + p * (e % q));
  }

  lemma TopEnds(exponent: seq<u32>)
    ensures Top(Val(exponent), 32 * |exponent|) == 0 && Top(Val(exponent), 0) == Val(exponent)
  {
    hide Val, Pow;
    ValBound(exponent);
    PowTwos(|exponent|);
    DivModIs(Val(exponent), Two(32 * |exponent|), 0, Val(exponent));
    TwoZero();
  }

  // ---- One bit at a time ----

  /** result is base to the bits so far, once one of them was set. */
  ghost predicate Sofar(result: seq<u32>, was: seq<u32>, modulus: seq<u32>, b: int, set_: bool, e: nat) {
    && (set_ <==> e > 0) && (if set_ then Holds(result, modulus, b, e) else result == was)
  }

  /** Left to right: square for every bit, and multiply for a set one. */
  method SimpleMonExpMod(base: seq<u32>, exponent: seq<u32>, modulus: seq<u32>, modInv: u32, result: array<u32>)
    requires Prepared(modulus, modInv) && |modulus| >= 2 && |base| == result.Length == |modulus| && Val(modulus) > 0
    modifies result
    ensures Val(exponent) > 0 ==> Holds(result[..], modulus, Mean(Val(base), Val(modulus), |modulus|), Val(exponent))
    ensures Val(exponent) == 0 ==> result[..] == old(result[..])
  {
    hide Val, Pow, Holds, Mean, Top, Two;
    ghost var b, v, was := Mean(Val(base), Val(modulus), |modulus|), Val(exponent), result[..];
    var seen := false;
    var temp := new u32[2 * |modulus|];
    TopEnds(exponent);
    var ii: nat := |exponent|;
    while ii > 0
      invariant ii <= |exponent| && Sofar(result[..], was, modulus, b, seen, Top(v, 32 * ii))
    {
      ii := ii - 1;
      var mask := 0x8000_0000;
      ghost var k: nat := 32;
      TwoOne31();
      while mask > 0
        invariant k <= 32 && (if k == 0 then mask == 0 else mask == Two(k - 1))
        invariant Sofar(result[..], was, modulus, b, seen, Top(v, 32 * ii + k))
      {
        k := k - 1;
        NextBit(exponent, ii, k);
        var bit := (exponent[ii] / mask) % 2;
        seen := SimpleBit(bit, seen, base, modulus, modInv, result, temp, was, b, Top(v, 32 * ii + k + 1));
        HalfTwo(k);
        mask := mask / 2;
      }
    }
  }

  lemma TwoOne31()
    ensures Two(31) == 0x8000_0000
  {
    Two32();
    TwoNext(31);
  }

  lemma HalfTwo(k: nat)
    ensures Two(k) / 2 == if k == 0 then 0 else Two(k - 1)
  {}

  method SimpleBit(bit: int, seen: bool, base: seq<u32>, modulus: seq<u32>, modInv: u32, result: array<u32>,
                   temp: array<u32>, ghost was: seq<u32>, ghost b: int, ghost e: nat) returns (seen': bool)
    requires Buffers(modulus, modInv, result, temp) && |base| == |modulus| && Val(modulus) > 0 && 0 <= bit <= 1
    requires b == Mean(Val(base), Val(modulus), |modulus|) && Sofar(result[..], was, modulus, b, seen, e)
    modifies result, temp
    ensures Sofar(result[..], was, modulus, b, seen', 2 * e + bit)
  {
    hide Val, Pow, Holds, Mean;
    seen' := seen;
    HoldsBase(base, modulus);
    if seen {
      SquareOnce(result, temp, modulus, modInv, b, e);
      if bit != 0 {
        TimesFactor(result, temp, base, modulus, modInv, b, 2 * e, 1);
      }
    } else if bit != 0 {
      Set(result, 0, base);
      assert result[..] == result[0..0 + |base|];
      seen' := true;
    }
  }

  // ---- Sliding windows ----

  /** Entry i of the table. */
  function Entry(window: seq<u32>, i: nat, n: nat): seq<u32>
    requires (i + 1) * n <= |window|
  {
    EntryFits(i, n);
    window[i * n..(i + 1) * n]
  }

  lemma EntryFits(i: nat, n: nat)
    ensures 0 <= i * n <= (i + 1) * n && (i + 1) * n == i * n + n
  {
    Distribute(n, i, 1);
    MulAtMost(n, 0, i);
  }

  lemma EntryOrder(j: nat, i: nat, n: nat)
    requires j < i
    ensures (j + 1) * n <= i * n
  {
    MulAtMost(n, j + 1, i);
    Commute(n, j + 1);
    Commute(n, i);
  }

  /** The first count entries are the odd powers. */
  ghost predicate OddPowers(window: seq<u32>, count: nat, modulus: seq<u32>, b: int) {
    && count * |modulus| <= |window|
    && forall i :: 0 <= i < count ==>
         (i + 1) * |modulus| <= |window| && Holds(Entry(window, i, |modulus|), modulus, b, 2 * i + 1)
  }

  lemma OddPowersGrow(was: seq<u32>, window: seq<u32>, count: nat, modulus: seq<u32>, b: int)
    requires OddPowers(was, count, modulus, b) && (count + 1) * |modulus| <= |was|
    requires count * |modulus| <= (count + 1) * |modulus|
    requires Same(window, was, count * |modulus|, (count + 1) * |modulus|)
    requires Holds(Entry(window, count, |modulus|), modulus, b, 2 * count + 1)
    ensures OddPowers(window, count + 1, modulus, b)
  {
    hide Holds;
    var n := |modulus|;
    forall i | 0 <= i < count + 1 ensures (i + 1) * n <= |window| && Holds(Entry(window, i, n), modulus, b, 2 * i + 1) {
      if i < count {
        EntryOrder(i, count, n);
        EntryFits(i, n);
        assert Entry(window, i, n) == Entry(was, i, n);
      }
    }
  }

  /** The table of odd powers: base, base cubed, and so on, each the last one times base squared. */
  method PrecomputeWindow(base: seq<u32>, modulus: seq<u32>, modInv: u32, windowBits: nat) returns (window: array<u32>)
    requires Prepared(modulus, modInv) && |modulus| >= 2 && |base| == |modulus| && Val(modulus) > 0 && windowBits > 0
    ensures fresh(window)
    ensures OddPowers(window[..], Two(windowBits - 1), modulus, Mean(Val(base), Val(modulus), |modulus|))
  {
    hide Val, Pow, Holds, Mean, Two, OddPowers;
    var n := |modulus|;
    ghost var b := Mean(Val(base), Val(modulus), n);
    var temp, squared := new u32[2 * n], new u32[n];
    HoldsBase(base, modulus);
    Set(squared, 0, base);
    assert squared[..] == squared[0..0 + |base|];
    SquareOnce(squared, temp, modulus, modInv, b, 1);
    var k := Two(windowBits - 1);
    EntryOrder(0, k, n);
    window := new u32[k * n];
    Set(window, 0, base);
    OddPowersStart(window[..], base, modulus, b);
    var cw: nat := 0;
    ghost var i: nat := 0;
    var left := k - 1;
    while left > 0
      invariant left == k - 1 - i && cw == i * n && i < k
      invariant Holds(squared[..], modulus, b, 2) && OddPowers(window[..], i + 1, modulus, b)
    {
      EntryOrder(i + 1, k, n);
      EntryFits(i, n);
      EntryFits(i + 1, n);
      NextEntry(window, cw, squared[..], temp, modulus, modInv, i, b);
      cw := cw + n;
      i := i + 1;
      left := left - 1;
    }
  }

  lemma OddPowersStart(window: seq<u32>, base: seq<u32>, modulus: seq<u32>, b: int)
    requires |base| == |modulus| <= |window| && window[0..0 + |base|] == base && Holds(base, modulus, b, 1)
    ensures OddPowers(window, 1, modulus, b)
  {
    hide Holds;
    assert 0 * |modulus| == 0 && (0 + 1) * |modulus| == |modulus|;
    assert Entry(window, 0, |modulus|) == base;
  }

  method NextEntry(window: array<u32>, cw: nat, squared: seq<u32>, temp: array<u32>, modulus: seq<u32>, modInv: u32,
                   ghost i: nat, ghost b: int)
    requires Prepared(modulus, modInv) && |modulus| >= 2 && temp.Length == 2 * |modulus|
    requires temp != window && |squared| == |modulus|
    requires cw == i * |modulus| && cw + |modulus| == (i + 1) * |modulus|
    requires cw + 2 * |modulus| == (i + 2) * |modulus| <= window.Length
    requires Holds(squared, modulus, b, 2) && OddPowers(window[..], i + 1, modulus, b)
    modifies window, temp
    ensures OddPowers(window[..], i + 2, modulus, b)
  {
    hide Val, Pow, Holds, OddPowers, Reduced;
    var n := |modulus|;
    ghost var was, x := window[..], window[cw..cw + n];
    EntryHolds(was, i, i + 1, modulus, b);
    Karatsuba.Multiply(temp, 0, window[cw..cw + n], squared);
    MonReduce(temp, 0, modulus, modInv, window, cw + n);
    HoldsProduct(window[cw + n..cw + n + n], x, squared, modulus, b, 2 * i + 1, 2);
    assert Entry(window[..], i + 1, n) == window[cw + n..cw + n + n];
    OddPowersGrow(was, window[..], i + 1, modulus, b);
  }

  lemma EntryHolds(window: seq<u32>, i: nat, count: nat, modulus: seq<u32>, b: int)
    requires OddPowers(window, count, modulus, b) && i < count
    ensures (i + 1) * |modulus| <= |window| && Holds(Entry(window, i, |modulus|), modulus, b, 2 * i + 1)
  {}

  /** The bits held back: used of them, from the first set one, the last tz of them clear. */
  predicate Held(used: nat, bits: nat, tz: nat) {
    used > 0 ==> tz < used && bits < Two(used) && bits == Two(tz) * (2 * (bits / Two(tz + 1)) + 1)
  }

  lemma HeldOne()
    ensures Held(1, 1, 0)
  {
    assert Two(0) == 1 && Two(1) == 2;
  }

  lemma HeldSet(used: nat, bits: nat, tz: nat)
    requires used > 0 && Held(used, bits, tz)
    ensures Held(used + 1, 2 * bits + 1, 0)
  {
    assert Two(0) == 1 && Two(0 + 1) == 2;
    TwoNext(used);
  }

  lemma HeldClear(used: nat, bits: nat, tz: nat)
    requires used > 0 && Held(used, bits, tz)
    ensures Held(used + 1, 2 * bits, tz + 1)
  {
    hide Two;
    TwoNext(used);
    TwoNext(tz);
    TwoNext(tz + 1);
    var p, j := Two(tz), bits / Two(tz + 1);
    Regroup(2, p, 2 * j + 1);
    Distribute(2 * p, 2 * j, 1);
    Rotate3(2 * p, 2, j);
    Regroup(2, 2 * p, j);
    DivModIs(2 * bits, 2 * (2 * p), j, 2 * p);
  }

  /** The odd part of the held bits indexes the table. */
  lemma HeldIndex(used: nat, bits: nat, tz: nat, windowBits: nat)
    requires 0 < used <= windowBits && Held(used, bits, tz)
    ensures bits / Two(tz + 1) < Two(windowBits - 1)
  {
    hide Two;
    LongDivision.TwoGrows(used, windowBits);
    TwoNext(windowBits - 1);
    var j := bits / Two(tz + 1);
    MulAtMost(2 * j + 1, 1, Two(tz));
    Commute(2 * j + 1, Two(tz));
  }

  /** What is done, what is held back, and the bits so far. */
  ghost predicate Windowed(result: seq<u32>, was: seq<u32>, modulus: seq<u32>, b: int, seen: bool, used: nat, bits: nat,
                           tz: nat, done: nat, e: nat) {
    && Sofar(result, was, modulus, b, seen, done) && Held(used, bits, tz)
    && e == (if used > 0 then done * Two(used) + bits else done)
  }

  /** Puts the held bits into the result: square as often as there are bits up to the last set one, multiply by the odd
      power, and square for the clear bits. */
  method Flush(seen: bool, used: nat, bits: nat, tz: nat, window: seq<u32>, modulus: seq<u32>, modInv: u32,
               result: array<u32>, temp: array<u32>, ghost was: seq<u32>, ghost b: int, ghost windowBits: nat,
               ghost done: nat)
    requires Buffers(modulus, modInv, result, temp) && 0 < used <= windowBits && Held(used, bits, tz)
    requires OddPowers(window, Two(windowBits - 1), modulus, b) && Sofar(result[..], was, modulus, b, seen, done)
    modifies result, temp
    ensures Sofar(result[..], was, modulus, b, true, done * Two(used) + bits)
  {
    hide Val, Pow, Holds, Two, OddPowers, Held;
    HeldIndex(used, bits, tz, windowBits);
    HeldBounds(used, bits, tz);
    var index := bits / Two(tz + 1);
    EntryHolds(window, index, Two(windowBits - 1), modulus, b);
    EntryFits(index, |modulus|);
    var entry := Entry(window, index, |modulus|);
    ghost var e := done * Two(used - tz) + (2 * index + 1);
    if seen {
      SquareTimes(result, temp, modulus, modInv, used - tz, b, done);
      TimesFactor(result, temp, entry, modulus, modInv, b, done * Two(used - tz), 2 * index + 1);
    } else {
      Set(result, 0, entry);
      assert result[..] == result[0..0 + |entry|];
      NothingTimes(done, Two(used - tz));
    }
    SquareTimes(result, temp, modulus, modInv, tz, b, e);
    FlushedIs(done, used, bits, tz, index);
  }

  lemma NothingTimes(done: int, p: int)
    requires done == 0
    ensures done * p == 0
  {}

  lemma HeldBounds(used: nat, bits: nat, tz: nat)
    requires used > 0 && Held(used, bits, tz)
    ensures tz < used
  {}

  lemma FlushedIs(done: nat, used: nat, bits: nat, tz: nat, index: nat)
    requires used > 0 && Held(used, bits, tz) && index == bits / Two(tz + 1)
    ensures (done * Two(used - tz) + (2 * index + 1)) * Two(tz) == done * Two(used) + bits
    ensures done * Two(used) + bits > 0
  {
    hide Two;
    var p, w := Two(tz), Two(used - tz);
    TwoSum(used - tz, tz);
    Distribute(p, done * w, 2 * index + 1);
    Regroup(done, w, p);
    MulAtMost(p, 1, 2 * index + 1);
    MulAtMost(Two(used), 0, done);
    Commute(Two(used), done);
    Commute(2 * index + 1, p);
  }

  /** Takes in one bit of the exponent. */
  method TakeBit(bit: int, seen: bool, used: nat, bits: nat, tz: nat, window: seq<u32>, windowBits: nat,
                 modulus: seq<u32>, modInv: u32, result: array<u32>, temp: array<u32>, ghost was: seq<u32>,
                 ghost b: int, ghost done: nat, ghost e: nat)
    returns (seen': bool, used': nat, bits': nat, tz': nat, ghost done': nat)
    requires Buffers(modulus, modInv, result, temp) && 0 <= bit <= 1 && used < windowBits && windowBits >= 2
    requires OddPowers(window, Two(windowBits - 1), modulus, b)
    requires Windowed(result[..], was, modulus, b, seen, used, bits, tz, done, e)
    modifies result, temp
    ensures used' < windowBits && Windowed(result[..], was, modulus, b, seen', used', bits', tz', done', 2 * e + bit)
  {
    hide Val, Pow, Holds, Two, OddPowers, Held;
    seen', used', bits', tz', done' := seen, used, bits, tz, done;
    if used > 0 {
      if bit == 1 {
        bits', tz' := 2 * bits + 1, 0;
        HeldSet(used, bits, tz);
      } else {
        bits', tz' := 2 * bits, tz + 1;
        HeldClear(used, bits, tz);
      }
      used' := used + 1;
      TwoNext(used);
      Rotate3(done, 2, Two(used));
      if used' == windowBits {
        Flush(seen, used', bits', tz', window, modulus, modInv, result, temp, was, b, windowBits, done);
        seen', done', used' := true, done * Two(used') + bits', 0;
        HeldNone(bits', tz');
      }
    } else if bit == 1 {
      used', bits', tz' := 1, 1, 0;
      HeldOne();
      TwoOfOne();
    } else {
      if seen {
        SquareOnce(result, temp, modulus, modInv, b, done);
      }
      done' := 2 * done;
    }
  }

  lemma HeldNone(bits: nat, tz: nat)
    ensures Held(0, bits, tz)
  {}

  lemma TwoOfOne()
    ensures Two(1) == 2
  {
    assert Two(0) == 1;
  }

  /** A word shifted left k places shows bit 31 - k at its top. */
  lemma WordBit(e: u32, k: nat)
    requires k < 32
    ensures ((e * Two(k)) % B) / 0x8000_0000 == (e / Two(31 - k)) % 2
    ensures (((e * Two(k)) % B) * 2) % B == (e * Two(k + 1)) % B
  {
    hide Two;
    var p, q := Two(k), Two(31 - k);
    TwoB(k);
    TwoNext(31 - k);
    TwoNext(k);
    Rotate3(p, 2, q);
    Commute(p, e);
    WordTop(e, p, q);
    Rotate3(e, 2, p);
    DoubleMod(e * p);
  }

  lemma DoubleMod(x: int)
    ensures ((x % B) * 2) % B == (x * 2) % B
  {}

  lemma WordTop(e: int, p: int, q: int)
    requires 0 <= e && p > 0 && q > 0 && 2 * (p * q) == B
    ensures ((p * e) % B) / 0x8000_0000 == (e / q) % 2
  {
    var j := e / q;
    DivMod(e, q);
    Distribute(p, q * j, e % q);
    Regroup(p, q, j);
    var r := p * (e % q);
    MulAtMost(p, 0, e % q);
    MulLess(p, e % q, q);
    DivModIs(p * e, B, j / 2, 0x8000_0000 * (j % 2) + r);
  }

  /** result = base to the exponent, in the Montgomery domain: nothing is written for a zero exponent. */
  method MonExpMod(base: seq<u32>, exponent: seq<u32>, modulus: seq<u32>, modInv: u32, result: array<u32>)
    requires Prepared(modulus, modInv) && |modulus| >= 2 && |base| == result.Length == |modulus| && Val(modulus) > 0
    modifies result
    ensures Val(exponent) > 0 ==> Holds(result[..], modulus, Mean(Val(base), Val(modulus), |modulus|), Val(exponent))
    ensures Val(exponent) == 0 ==> result[..] == old(result[..])
  {
    hide Val, Pow, Holds, Mean, Two, OddPowers, Held, Top;
    var windowBits := LongDivision.Degree(|exponent|);
    if windowBits < 4 {
      SimpleMonExpMod(base, exponent, modulus, modInv, result);
      return;
    }
    ghost var b, v, was, done := Mean(Val(base), Val(modulus), |modulus|), Val(exponent), result[..], 0;
    var window := PrecomputeWindow(base, modulus, modInv, windowBits);
    var seen, used: nat, bits: nat, tz: nat := false, 0, 0, 0;
    var temp := new u32[2 * |modulus|];
    TopEnds(exponent);
    HeldNone(bits, tz);
    var ii: nat := |exponent|;
    while ii > 0
      invariant ii <= |exponent| && used < windowBits
      invariant Windowed(result[..], was, modulus, b, seen, used, bits, tz, done, Top(v, 32 * ii))
      invariant OddPowers(window[..], Two(windowBits - 1), modulus, b)
    {
      ii := ii - 1;
      seen, used, bits, tz, done :=
        TakeWord(exponent, ii, seen, used, bits, tz, window[..], windowBits, modulus, modInv, result, temp, was, b,
                 done);
    }
    if used > 0 {
      Flush(seen, used, bits, tz, window[..], modulus, modInv, result, temp, was, b, windowBits, done);
    }
  }

  /** Takes in the bits of one limb of the exponent, from the top. */
  method TakeWord(exponent: seq<u32>, ii: nat, seen: bool, used: nat, bits: nat, tz: nat, window: seq<u32>,
                  windowBits: nat, modulus: seq<u32>, modInv: u32, result: array<u32>, temp: array<u32>,
                  ghost was: seq<u32>, ghost b: int, ghost done: nat)
    returns (seen': bool, used': nat, bits': nat, tz': nat, ghost done': nat)
    requires Buffers(modulus, modInv, result, temp) && ii < |exponent| && used < windowBits && windowBits >= 2
    requires OddPowers(window, Two(windowBits - 1), modulus, b)
    requires Windowed(result[..], was, modulus, b, seen, used, bits, tz, done, Top(Val(exponent), 32 * (ii + 1)))
    modifies result, temp
    ensures used' < windowBits
    ensures Windowed(result[..], was, modulus, b, seen', used', bits', tz', done', Top(Val(exponent), 32 * ii))
  {
    hide Val, Pow, Holds, Two, OddPowers, Held, Top, Windowed;
    seen', used', bits', tz', done' := seen, used, bits, tz, done;
    ghost var v := Val(exponent);
    var e := exponent[ii] as int;
    var left: nat := 32;
    TwoZero();
    while left > 0
      invariant left <= 32 && used' < windowBits && e == (exponent[ii] * Two(32 - left)) % B
      invariant Windowed(result[..], was, modulus, b, seen', used', bits', tz', done', Top(v, 32 * ii + left))
    {
      left := left - 1;
      WordBit(exponent[ii], 31 - left);
      NextBit(exponent, ii, left);
      seen', used', bits', tz', done' :=
        TakeBit(e / 0x8000_0000, seen', used', bits', tz', window, windowBits, modulus, modInv,
                                                      result, temp, was, b, done', Top(v, 32 * ii + left + 1));
      e := (e * 2) % B;
    }
  }
}
