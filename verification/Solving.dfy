/** Forward and back substitution on a factored matrix, and what they solve (src/fec/Wirehair.cpp, part 4). */
module Solving {
  import opened Blocks
  import opened GaloisField
  import opened Elimination

  ghost predicate Square(us: seq<Row>) {
    forall i :: 0 <= i < |us| ==> |us[i]| == |us|
  }

  /** Value i after the first p columns below the diagonal have been substituted. */
  ghost function Forward(f: Tables, us: seq<Row>, bs: seq<Block>, p: nat, i: nat): Block
    requires Square(us) && |bs| == |us| && p <= |us| && i < |us|
  {
    if p == 0 then bs[i]
    else if i < p then Forward(f, us, bs, p - 1, i)
    else Add(Forward(f, us, bs, p - 1, i), Scale(f, us[i][p - 1], Forward(f, us, bs, p - 1, p - 1)))
  }

  /** Value i after the columns from p on have been substituted above the diagonal, and pivots from p on divided out. */
  ghost function Backward(f: Tables, us: seq<Row>, ys: seq<Block>, p: nat, i: nat): Block
    requires Square(us) && |ys| == |us| && p <= |us| && i < |us|
    decreases |us| - p, if i == p then 0 else 1
  {
    if p == |us| then ys[i]
    else if i == p then Quotient(f, Backward(f, us, ys, p + 1, p), us[p][p])
    else if i < p then Add(Backward(f, us, ys, p + 1, i), Scale(f, us[i][p], Backward(f, us, ys, p, p)))
    else Backward(f, us, ys, p + 1, i)
  }

  ghost function ForwardAll(f: Tables, us: seq<Row>, bs: seq<Block>): (ys: seq<Block>)
    requires Square(us) && |bs| == |us|
    ensures |ys| == |us|
  {
    seq(|us|, i requires 0 <= i < |us| => Forward(f, us, bs, i, i))
  }

  ghost function BackwardAll(f: Tables, us: seq<Row>, ys: seq<Block>): (xs: seq<Block>)
    requires Square(us) && |ys| == |us|
    ensures |xs| == |us|
  {
    seq(|us|, i requires 0 <= i < |us| => Backward(f, us, ys, i, i))
  }

  // ---- Forward ----

  /** A value is final once its own column is reached. */
  lemma {:induction false} ForwardStays(f: Tables, us: seq<Row>, bs: seq<Block>, p: nat, i: nat)
    requires Square(us) && |bs| == |us| && i <= p <= |us| && i < |us|
    ensures Forward(f, us, bs, p, i) == ForwardAll(f, us, bs)[i]
    decreases p
  {
    if p > i {
      ForwardStays(f, us, bs, p - 1, i);
    }
  }

  lemma {:induction false} ForwardSum(f: Tables, us: seq<Row>, bs: seq<Block>, p: nat, i: nat)
    requires Square(us) && |bs| == |us| && p <= i < |us|
    ensures Forward(f, us, bs, p, i) == Add(bs[i], RowDot(f, us[i], ForwardAll(f, us, bs), p))
  {
    hide Add, Scale;
    if p == 0 {
      AddZero(bs[i]);
    } else {
      ForwardSum(f, us, bs, p - 1, i);
      var ys := ForwardAll(f, us, bs);
      AddAssoc(bs[i], RowDot(f, us[i], ys, p - 1), Scale(f, us[i][p - 1], ys[p - 1]));
    }
  }

  /** Multiplying a product row out: its multipliers weigh the values of the upper rows. */
  lemma {:induction false} LUDot(f: Tables, row: Row, us: seq<Row>, e: nat, xs: seq<Block>, ts: seq<Block>)
    requires IsField(f) && e <= |us| == |ts| && e <= |row| == |xs| && forall j :: 0 <= j < |us| ==> |us[j]| == |row|
    requires forall j :: 0 <= j < |us| ==> ts[j] == RowDot(f, Tail(us[j], j), xs, |row|)
    ensures RowDot(f, LU(f, row, us, e), xs, |row|) == RowDot(f, row, ts, e)
  {
    hide Add, Scale, IsField, Tail;
    if e == 0 {
      RowDotNone(f, ZeroRow(|row|), xs, |row|);
    } else {
      LUDot(f, row, us, e - 1, xs, ts);
      var last := Tail(us[e - 1], e - 1);
      RowDotAdd(f, LU(f, row, us, e - 1), ScaleRow(f, row[e - 1], last), xs, |row|);
      RowDotScale(f, row[e - 1], last, xs, |row|);
    }
  }

  ghost function UpperValues(f: Tables, us: seq<Row>, xs: seq<Block>): (ts: seq<Block>)
    requires Square(us) && |xs| == |us|
    ensures |ts| == |us|
  {
    seq(|us|, j requires 0 <= j < |us| => RowDot(f, Tail(us[j], j), xs, |us|))
  }

  /** xs satisfies the equations of the matrix whose pivot rows factor into us. */
  ghost predicate Solves(f: Tables, a: seq<Row>, xs: seq<Block>, bs: seq<Block>)
    requires |a| == |xs| == |bs| && Square(a)
  {
    forall i :: 0 <= i < |a| ==> RowDot(f, a[i], xs, |a|) == bs[i]
  }

  ghost predicate FullyFactored(f: Tables, a: seq<Row>, us: seq<Row>) {
    && Square(a) && Square(us) && |a| == |us|
    && (forall i :: 0 <= i < |us| ==> us[i][i] != ZERO)
    && (forall i :: 0 <= i < |us| ==> a[i] == AddRow(LU(f, us[i], us, i), Tail(us[i], i)))
  }

  lemma {:induction false} RowEquation(f: Tables, a: seq<Row>, us: seq<Row>, xs: seq<Block>, i: nat)
    requires IsField(f) && FullyFactored(f, a, us) && |xs| == |us| && i < |us|
    ensures var ts := UpperValues(f, us, xs); RowDot(f, a[i], xs, |us|) == Add(RowDot(f, us[i], ts, i), ts[i])
  {
    hide Add, Scale, IsField, Tail, AddRow;
    LUDot(f, us[i], us, i, xs, UpperValues(f, us, xs));
    RowDotAdd(f, LU(f, us[i], us, i), Tail(us[i], i), xs, |us|);
  }

  /** Forward substitution turns A x = b into U x = y, in both directions. */
  lemma {:induction false} ForwardSolves(f: Tables, a: seq<Row>, us: seq<Row>, xs: seq<Block>, bs: seq<Block>)
    requires IsField(f) && FullyFactored(f, a, us) && |xs| == |bs| == |us|
    ensures Solves(f, a, xs, bs) <==> UpperValues(f, us, xs) == ForwardAll(f, us, bs)
  {
    hide Add, Scale, IsField, UpperValues, FullyFactored;
    assert Square(us) && |a| == |us| && Square(a) by { Shapes(f, a, us); }
    var ts, ys := UpperValues(f, us, xs), ForwardAll(f, us, bs);
    if Solves(f, a, xs, bs) {
      forall i | 0 <= i < |us| ensures ts[i] == ys[i] {
        ForwardUnique(f, a, us, xs, bs, i);
      }
    }
    if ts == ys {
      forall i | 0 <= i < |us| ensures RowDot(f, a[i], xs, |a|) == bs[i] {
        RowEquation(f, a, us, xs, i);
        ForwardSum(f, us, bs, i, i);
        AddComm(bs[i], RowDot(f, us[i], ys, i));
        AddCancel(RowDot(f, us[i], ys, i), bs[i]);
      }
    }
  }

  lemma Shapes(f: Tables, a: seq<Row>, us: seq<Row>)
    requires FullyFactored(f, a, us)
    ensures Square(us) && |a| == |us| && Square(a)
  {}

  lemma {:induction false} ForwardUnique(f: Tables, a: seq<Row>, us: seq<Row>, xs: seq<Block>, bs: seq<Block>, i: nat)
    requires IsField(f) && FullyFactored(f, a, us) && |xs| == |bs| == |us| && i < |us|
    requires Solves(f, a, xs, bs)
    ensures UpperValues(f, us, xs)[i] == ForwardAll(f, us, bs)[i]
    decreases i
  {
    hide Add, Scale, IsField, UpperValues;
    var ts, ys := UpperValues(f, us, xs), ForwardAll(f, us, bs);
    forall j | 0 <= j < i ensures ts[j] == ys[j] {
      ForwardUnique(f, a, us, xs, bs, j);
    }
    RowDotSame(f, us[i], us[i], ts, ys, i);
    RowEquation(f, a, us, xs, i);
    ForwardSum(f, us, bs, i, i);
    var sum := RowDot(f, us[i], ys, i);
    AddMove(sum, ts[i], bs[i]);
    AddComm(sum, bs[i]);
  }

  // ---- Backward ----

  lemma {:induction false} TailStep(f: Tables, u: Row, p: nat, xs: seq<Block>, k: nat)
    requires IsField(f) && p < k <= |u| && k <= |xs|
    ensures RowDot(f, Tail(u, p), xs, k) == Add(RowDot(f, Tail(u, p + 1), xs, k), Scale(f, u[p], xs[p]))
  {
    hide Add, Scale, IsField;
    var x := Scale(f, u[p], xs[p]);
    if k == p + 1 {
      RowDotNone(f, Tail(u, p), xs, p);
      RowDotNone(f, Tail(u, p + 1), xs, p + 1);
    } else {
      TailStep(f, u, p, xs, k - 1);
      var rest, y := RowDot(f, Tail(u, p + 1), xs, k - 1), Scale(f, u[k - 1], xs[k - 1]);
      AddAssoc(rest, x, y);
      AddComm(x, y);
      AddAssoc(rest, y, x);
    }
  }

  lemma {:induction false} BackwardStays(f: Tables, us: seq<Row>, ys: seq<Block>, p: nat, i: nat)
    requires Square(us) && |ys| == |us| && p <= i < |us|
    ensures Backward(f, us, ys, p, i) == BackwardAll(f, us, ys)[i]
    decreases i - p
  {
    if p < i {
      BackwardStays(f, us, ys, p + 1, i);
    }
  }

  lemma {:induction false} BackwardSum(f: Tables, us: seq<Row>, ys: seq<Block>, p: nat, i: nat)
    requires IsField(f) && Square(us) && |ys| == |us| && i < p <= |us|
    ensures Backward(f, us, ys, p, i) == Add(ys[i], RowDot(f, Tail(us[i], p), BackwardAll(f, us, ys), |us|))
    decreases |us| - p
  {
    hide Add, Scale, IsField;
    var zs := BackwardAll(f, us, ys);
    if p == |us| {
      RowDotNone(f, Tail(us[i], p), zs, |us|);
      AddZero(ys[i]);
    } else {
      BackwardSum(f, us, ys, p + 1, i);
      TailStep(f, us[i], p, zs, |us|);
      AddAssoc(ys[i], RowDot(f, Tail(us[i], p + 1), zs, |us|), Scale(f, us[i][p], zs[p]));
    }
  }

  // The equation of upper row i gives x[i] once the later ones are known.
  lemma UpperEquation(f: Tables, us: seq<Row>, xs: seq<Block>, ys: seq<Block>, i: nat)
    requires IsField(f) && Square(us) && |xs| == |ys| == |us| && i < |us| && us[i][i] != ZERO
    ensures RowDot(f, Tail(us[i], i), xs, |us|) == ys[i] <==>
            xs[i] == Quotient(f, Add(ys[i], RowDot(f, Tail(us[i], i + 1), xs, |us|)), us[i][i])
  {
    hide Add, Scale, Quotient, IsField;
    var rest := RowDot(f, Tail(us[i], i + 1), xs, |us|);
    TailStep(f, us[i], i, xs, |us|);
    AddMove(rest, Scale(f, us[i][i], xs[i]), ys[i]);
    AddComm(rest, ys[i]);
    ScaleQuotient(f, us[i][i], Add(ys[i], rest), xs[i]);
  }

  lemma {:induction false} BackwardUnique(f: Tables, us: seq<Row>, xs: seq<Block>, ys: seq<Block>, i: nat)
    requires IsField(f) && Square(us) && |xs| == |ys| == |us| && i < |us|
    requires forall j :: 0 <= j < |us| ==> us[j][j] != ZERO
    requires UpperValues(f, us, xs) == ys
    ensures xs[i] == BackwardAll(f, us, ys)[i]
    decreases |us| - i
  {
    hide Add, Scale, Quotient, IsField;
    var zs := BackwardAll(f, us, ys);
    forall j | i < j < |us| ensures xs[j] == zs[j] {
      BackwardUnique(f, us, xs, ys, j);
    }
    assert UpperValues(f, us, xs)[i] == ys[i];
    UpperEquation(f, us, xs, ys, i);
    BackwardSum(f, us, ys, i + 1, i);
    TailSame(f, us[i], i + 1, xs, zs);
  }

  lemma TailSame(f: Tables, u: Row, p: nat, xs: seq<Block>, zs: seq<Block>)
    requires IsField(f) && |u| == |xs| == |zs| && forall j :: p <= j < |u| ==> xs[j] == zs[j]
    ensures RowDot(f, Tail(u, p), xs, |u|) == RowDot(f, Tail(u, p), zs, |u|)
  {
    hide Scale, IsField;
    forall j | 0 <= j < |u| ensures Scale(f, Tail(u, p)[j], xs[j]) == Scale(f, Tail(u, p)[j], zs[j]) {
      ScaleUnits(f, ZERO, xs[j]);
      ScaleUnits(f, ZERO, zs[j]);
    }
    RowDotSame(f, Tail(u, p), Tail(u, p), xs, zs, |u|);
  }

  /** Back substitution solves U x = y, and its solution is the only one. */
  lemma {:induction false} BackwardSolves(f: Tables, us: seq<Row>, xs: seq<Block>, ys: seq<Block>)
    requires IsField(f) && Square(us) && |xs| == |ys| == |us|
    requires forall j :: 0 <= j < |us| ==> us[j][j] != ZERO
    ensures UpperValues(f, us, xs) == ys <==> xs == BackwardAll(f, us, ys)
  {
    hide Add, Scale, Quotient, IsField;
    if UpperValues(f, us, xs) == ys {
      forall i | 0 <= i < |us| ensures xs[i] == BackwardAll(f, us, ys)[i] {
        BackwardUnique(f, us, xs, ys, i);
      }
    }
    if xs == BackwardAll(f, us, ys) {
      forall i | 0 <= i < |us| ensures UpperValues(f, us, xs)[i] == ys[i] {
        UpperEquation(f, us, xs, ys, i);
        BackwardSum(f, us, ys, i + 1, i);
      }
    }
  }

  /** The solution both substitutions compute. */
  ghost function Solution(f: Tables, us: seq<Row>, bs: seq<Block>): (xs: seq<Block>)
    requires Square(us) && |bs| == |us|
    ensures |xs| == |us|
  {
    BackwardAll(f, us, ForwardAll(f, us, bs))
  }

  /** A factored square system has exactly one solution, the one substitution computes. */
  lemma UniqueSolution(f: Tables, a: seq<Row>, us: seq<Row>, xs: seq<Block>, bs: seq<Block>)
    requires IsField(f) && FullyFactored(f, a, us) && |xs| == |bs| == |us|
    ensures Solves(f, a, xs, bs) <==> xs == Solution(f, us, bs)
  {
    hide IsField, Solves, UpperValues, ForwardAll, BackwardAll, LU, Tail, AddRow;
    ForwardSolves(f, a, us, xs, bs);
    BackwardSolves(f, us, xs, ForwardAll(f, us, bs));
  }

  // ---- No pivot ----

  function Ones(): Block { seq(BLOCK_BYTES, _ => ONE) }

  function OneOrZero(one: bool): Block { if one then Ones() else Zero() }

  function Indicator(n: nat, k: nat): (xs: seq<Block>)
    ensures |xs| == n && forall i :: 0 <= i < n ==> xs[i] == if i == k then Ones() else Zero()
  {
    if n == 0 then [] else Indicator(n - 1, k) + [OneOrZero(n - 1 == k)]
  }

  /** A vector that is one in column k and zero after it, and that upper rows p..k-1 annihilate. */
  ghost function KernelVec(f: Tables, us: seq<Row>, n: nat, p: nat): (xs: seq<Block>)
    requires p <= |us| < n && forall j :: 0 <= j < |us| ==> |us[j]| == n
    ensures |xs| == n
    decreases |us| - p
  {
    if p == |us| then Indicator(n, |us|)
    else
      var xs := KernelVec(f, us, n, p + 1);
      xs[p := Quotient(f, RowDot(f, Tail(us[p], p + 1), xs, n), us[p][p])]
  }

  lemma {:induction false} KernelUpper(f: Tables, us: seq<Row>, n: nat, p: nat)
    requires IsField(f) && p <= |us| < n
    requires forall j :: 0 <= j < |us| ==> |us[j]| == n && us[j][j] != ZERO
    ensures var xs := KernelVec(f, us, n, p);
            && xs[|us|] == Ones() && (forall i :: |us| < i < n ==> xs[i] == Zero())
            && forall j :: p <= j < |us| ==> RowDot(f, Tail(us[j], j), xs, n) == Zero()
    decreases |us| - p
  {
    hide Add, Scale, Quotient, IsField, Zero, Ones;
    if p < |us| {
      KernelUpper(f, us, n, p + 1);
      var xs, xs' := KernelVec(f, us, n, p + 1), KernelVec(f, us, n, p);
      forall j | p < j < |us| ensures RowDot(f, Tail(us[j], j), xs', n) == Zero() {
        TailSame(f, us[j], j, xs, xs');
      }
      TailSame(f, us[p], p + 1, xs, xs');
      TailStep(f, us[p], p, xs', n);
      var sum := RowDot(f, Tail(us[p], p + 1), xs, n);
      ScaleQuotient(f, us[p][p], sum, xs'[p]);
      AddSelf(sum);
    }
  }

  /** A vector every row of a annihilates. */
  ghost predicate Annihilates(f: Tables, a: seq<Row>, n: nat, xs: seq<Block>)
    requires Rectangular(a, n) && |xs| == n
  {
    forall r :: 0 <= r < |a| ==> RowDot(f, a[r], xs, n) == Zero()
  }

  /** Elimination stops only when the matrix is singular: if no remaining row has column k, some vector
      that is one in column k is annihilated by every row. */
  lemma {:induction false} NoPivotSingular(f: Tables, a: seq<Row>, rows: seq<Row>, pivots: seq<nat>, k: nat, n: nat)
    requires IsField(f) && Factored(f, a, rows, pivots, k, n) && Rectangular(a, n) && k < n
    requires forall i :: k <= i < |pivots| ==> rows[pivots[i]][k] == ZERO
    requires forall r :: 0 <= r < |a| && r !in pivots ==> forall j :: 0 <= j <= k ==> a[r][j] == ZERO
    ensures var xs := KernelVec(f, PivotRows(rows, pivots)[..k], n, 0);
            xs[k] == Ones() && Annihilates(f, a, n, xs)
  {
    hide Add, Scale, IsField, LU, Tail, AddRow, KernelVec, Zero, Ones;
    var us := PivotRows(rows, pivots)[..k];
    KernelUpper(f, us, n, 0);
    var xs := KernelVec(f, us, n, 0);
    forall r | 0 <= r < |a| ensures RowDot(f, a[r], xs, n) == Zero() {
      if r in pivots {
        var i :| 0 <= i < |pivots| && pivots[i] == r;
        KernelRow(f, a[r], rows[r], us, Depth(i, k), i, xs);
      } else {
        RowDotNone(f, a[r], xs, n);
      }
    }
  }

  lemma KernelRow(f: Tables, orig: Row, row: Row, us: seq<Row>, e: nat, i: nat, xs: seq<Block>)
    requires IsField(f) && RowFactored(f, orig, row, us, e) && |us| < |row| == |xs| && e == Depth(i, |us|)
    requires forall j :: 0 <= j < |us| ==> RowDot(f, Tail(us[j], j), xs, |row|) == Zero()
    requires forall j :: |us| < j < |xs| ==> xs[j] == Zero()
    requires if i < |us| then row == us[i] else row[|us|] == ZERO
    ensures RowDot(f, orig, xs, |row|) == Zero()
  {
    hide Add, Scale, IsField, LU, Zero, AddRow, Tail, Xor;
    var ts := seq(|us|, j requires 0 <= j < |us| => RowDot(f, Tail(us[j], j), xs, |row|));
    LUDot(f, row, us, e, xs, ts);
    RowDotNone(f, row, ts, e);
    RowDotAdd(f, LU(f, row, us, e), Tail(row, e), xs, |row|);
    if i >= |us| {
      TailNone(f, row, e, xs);
    }
    AddZero(Zero());
  }

  lemma TailNone(f: Tables, row: Row, e: nat, xs: seq<Block>)
    requires IsField(f) && e < |row| == |xs| && row[e] == ZERO && forall j :: e < j < |xs| ==> xs[j] == Zero()
    ensures RowDot(f, Tail(row, e), xs, |row|) == Zero()
  {
    hide IsField, Scale, Add, Zero;
    RowDotNone(f, Tail(row, e), xs, |row|);
  }
}
