/** What the solver's result means: the recovery blocks are the one solution of every check equation, and a
    failure means there is no such one solution (src/fec/Wirehair.cpp). */
module Recovery {
  import opened ColumnIterator
  import opened CheckMatrix
  import opened Blocks
  import opened Compression
  import opened PeelOutcome
  import opened GaloisField
  import opened Elimination
  import opened Solving
  import opened Triangle
  import opened CheckSystem

  /** Binary rows, and under them the rows for extra blocks and the heavy rows. */
  ghost function WithHeavy(pr: Params, seeds: Seeds, ge: seq<Bits>, width: nat, extra: nat): (a: seq<Row>)
    requires width >= HeavyColumns(pr)
  {
    FullRows(ge, GeHeavy(pr, seeds, extra), width - HeavyColumns(pr))
  }

  /** The elimination matrix before any elimination. */
  ghost function GeMatrix(pr: Params, seeds: Seeds, gr: Graph, deferRows: seq<nat>, extra: nat): (a: seq<Row>)
    requires 0 < pr.d && GraphOk(gr) && gr.width == pr.n + pr.M()
    requires forall t :: 0 <= t < |deferRows| ==> deferRows[t] < |gr.vecs|
    requires |gr.colMap| >= HeavyColumns(pr)
  {
    WithHeavy(pr, seeds, GeBits(pr, seeds, gr, deferRows), |gr.colMap|, extra)
  }

  ghost function PivotValues(pr: Params, seeds: Seeds, gr: Graph, deferRows: seq<nat>,
                             pivots: seq<nat>): (bs: seq<Block>)
    requires 0 < pr.d && GraphOk(gr) && gr.width == pr.n + pr.M()
    requires forall t :: 0 <= t < |deferRows| ==> deferRows[t] < |gr.vecs|
    ensures |bs| == |pivots|
  {
    seq(|pivots|, i requires 0 <= i < |pivots| => GeValue(pr, seeds, gr, deferRows, pivots[i]))
  }

  /** The rows of a picked by the pivots. */
  lemma PivotsFactor(f: Tables, a: seq<Row>, rows: seq<Row>, pivots: seq<nat>, n: nat)
    requires Factored(f, a, rows, pivots, n, n) && |pivots| == n && Rectangular(a, n)
    ensures FullyFactored(f, PivotRows(a, pivots), PivotRows(rows, pivots))
  {
    var us, a' := PivotRows(rows, pivots), PivotRows(a, pivots);
    assert us[..n] == us;
    forall i | 0 <= i < n ensures a'[i] == AddRow(LU(f, us[i], us, i), Tail(us[i], i)) {
      assert RowFactored(f, a[pivots[i]], rows[pivots[i]], us, Depth(i, n));
    }
  }

  lemma {:induction false} RowDotZeros(f: Tables, a: Row, xs: seq<Block>, k: nat)
    requires IsField(f) && k <= |a| && k <= |xs| && forall j :: 0 <= j < k ==> xs[j] == Zero()
    ensures RowDot(f, a, xs, k) == Zero()
  {
    hide IsField, Scale, Zero;
    if k > 0 {
      RowDotZeros(f, a, xs, k - 1);
      ScaleUnits(f, a[k - 1], xs[k - 1]);
      AddZero(Zero());
    }
  }

  function Zeros(n: nat): (xs: seq<Block>)
    ensures |xs| == n && forall i :: 0 <= i < n ==> xs[i] == Zero()
  {
    if n == 0 then [] else Zeros(n - 1) + [Zero()]
  }

  /** A matrix that was eliminated to the end is not singular. */
  lemma FactoredRegular(f: Tables, a: seq<Row>, rows: seq<Row>, pivots: seq<nat>, n: nat)
    requires IsField(f) && Factored(f, a, rows, pivots, n, n) && |pivots| == n && Rectangular(a, n)
    ensures !Singular(f, a, n)
  {
    hide IsField, FullyFactored, Solution, RowDot, LU, Tail, RowFactored;
    PivotsFactor(f, a, rows, pivots, n);
    var us, a', bs := PivotRows(rows, pivots), PivotRows(a, pivots), Zeros(n);
    Shapes(f, a', us);
    if k, xs: seq<Block> :| 0 <= k < n && |xs| == n && xs[k] == Ones() && Annihilates(f, a, n, xs) {
      forall i | 0 <= i < n ensures RowDot(f, a'[i], xs, n) == bs[i] && RowDot(f, a'[i], bs, n) == bs[i] {
        RowDotZeros(f, a'[i], bs, n);
      }
      UniqueSolution(f, a', us, xs, bs);
      UniqueSolution(f, a', us, bs, bs);
      OnesNotZero();
      assert false;
    }
  }

  lemma OnesNotZero()
    ensures Ones() != Zero()
  {
    assert Ones()[0] == ONE && Zero()[0] == ZERO;
  }

  /** The elimination rows hold of exactly one vector: the one forward and back substitution computes. */
  lemma {:induction false} GeSolved(pr: Params, f: Tables, seeds: Seeds, gr: Graph, deferRows: seq<nat>, extra: nat,
                                    rows: seq<Row>, pivots: seq<nat>, ge: seq<Block>)
    requires IsField(f) && 0 < pr.d && GraphOk(gr) && gr.width == pr.n + pr.M()
    requires forall t :: 0 <= t < |deferRows| ==> deferRows[t] < |gr.vecs|
    requires |ge| == |gr.colMap| == |deferRows| + pr.M()
    requires Factored(f, GeMatrix(pr, seeds, gr, deferRows, extra), rows, pivots, |ge|, |ge|)
    requires AllListed(pivots, pr.d + |deferRows|, extra)
    ensures Square(PivotRows(rows, pivots)) && |pivots| == |ge|
    ensures GeHolds(pr, f, seeds, gr, deferRows, extra, ge) <==>
            ge == Solution(f, PivotRows(rows, pivots), PivotValues(pr, seeds, gr, deferRows, pivots))
  {
    hide IsField, GraphOk, GeBits, GeHeavy, RowDot, GeValue, Factored, FullyFactored, Solution, FullRows, LU, Tail;
    var a := GeMatrix(pr, seeds, gr, deferRows, extra);
    var n := |ge|;
    SystemShape(pr, seeds, gr, deferRows, extra);
    FactoredShape(f, a, rows, pivots, n, n);
    PivotsFactor(f, a, rows, pivots, n);
    var us, a', bs := PivotRows(rows, pivots), PivotRows(a, pivots), PivotValues(pr, seeds, gr, deferRows, pivots);
    Shapes(f, a', us);
    UniqueSolution(f, a', us, ge, bs);
    if Solves(f, a', ge, bs) {
      forall r | 0 <= r < |a| ensures RowDot(f, a[r], ge, n) == GeValue(pr, seeds, gr, deferRows, r) {
        if r in pivots {
          var i :| 0 <= i < |pivots| && pivots[i] == r;
          assert RowDot(f, a'[i], ge, n) == bs[i];
        } else {
          ExtraRow(pr, f, seeds, gr, deferRows, extra, r, ge);
        }
      }
    }
    if GeHolds(pr, f, seeds, gr, deferRows, extra, ge) {
      forall i | 0 <= i < n ensures RowDot(f, a'[i], ge, n) == bs[i] {}
    }
  }

  // Rows kept for extra blocks are empty here and say nothing.
  lemma ExtraRow(pr: Params, f: Tables, seeds: Seeds, gr: Graph, deferRows: seq<nat>, extra: nat, r: nat,
                 ge: seq<Block>)
    requires IsField(f) && 0 < pr.d && GraphOk(gr) && gr.width == pr.n + pr.M()
    requires forall t :: 0 <= t < |deferRows| ==> deferRows[t] < |gr.vecs|
    requires |ge| == |gr.colMap| >= HeavyColumns(pr) && pr.d + |deferRows| <= r < pr.d + |deferRows| + extra
    ensures var a := GeMatrix(pr, seeds, gr, deferRows, extra);
            r < |a| && |a[r]| == |ge| && RowDot(f, a[r], ge, |ge|) == GeValue(pr, seeds, gr, deferRows, r)
  {
    hide IsField, GraphOk, RowDot, Reduce, ReduceValue, HeavyRow;
    RowDotNone(f, ZeroRow(|ge| - HeavyColumns(pr)) + ZeroRow(HeavyColumns(pr)), ge, |ge|);
  }

  /** Blocks that satisfy the peeled rows are determined by their elimination columns. */
  lemma {:induction false} PeeledDetermine(gr: Graph, xs: seq<Block>, ys: seq<Block>)
    requires GraphOk(gr) && Triangular(gr) && Partitioned(gr) && |xs| == |ys| == gr.width
    requires PeeledHold(gr, xs) && PeeledHold(gr, ys) && PullBlocks(xs, gr.colMap) == PullBlocks(ys, gr.colMap)
    ensures xs == ys
  {
    hide Triangular, PeeledHold, Temp, CompressRow, Add, Distinct, Dot;
    forall c | 0 <= c < gr.width ensures xs[c] == ys[c] {
      assert c in gr.solved + gr.colMap;
      if c in gr.solved {
        var j :| 0 <= j < |gr.solved| && gr.solved[j] == c;
        SolvedColumn(gr, xs, j);
        SolvedColumn(gr, ys, j);
      } else {
        var g :| 0 <= g < |gr.colMap| && gr.colMap[g] == c;
        assert PullBlocks(xs, gr.colMap)[g] == xs[c] && PullBlocks(ys, gr.colMap)[g] == ys[c];
      }
    }
  }

  /** When elimination has finished, the blocks that satisfy the peeled rows and equal the computed solution
      on the elimination columns are the one solution of the whole check matrix. */
  lemma {:induction false} RecoveryIsSolution(pr: Params, f: Tables, seeds: Seeds, oc: Outcome, inputs: seq<Block>,
                                              extra: nat, rows: seq<Row>, pivots: seq<nat>, recovery: seq<Block>,
                                              xs: seq<Block>)
    requires IsField(f) && OutcomeOk(pr, oc) && |inputs| == pr.n && |xs| == |recovery| == pr.n + pr.M()
    requires GraphOk(GraphOf(pr, oc, inputs)) && PeeledHold(GraphOf(pr, oc, inputs), recovery)
    requires Factored(f, GeMatrix(pr, seeds, GraphOf(pr, oc, inputs), oc.deferRows, extra), rows, pivots,
                      |ColMap(pr, oc)|, |ColMap(pr, oc)|)
    requires AllListed(pivots, pr.d + |oc.deferRows|, extra) && Square(PivotRows(rows, pivots))
    requires PullBlocks(recovery, ColMap(pr, oc)) ==
             Solution(f, PivotRows(rows, pivots), PivotValues(pr, seeds, GraphOf(pr, oc, inputs), oc.deferRows, pivots))
    ensures Satisfied(pr, f, seeds, oc.gens, inputs, xs) <==> xs == recovery
  {
    hide IsField, OutcomeOk, Factored, AllListed, Solution, PivotRows, PivotValues, GeHolds, Satisfied, PeeledHold,
         GeMatrix, Triangular, Partitioned, GraphOk, Params.Valid, Lowest, RowOk, RowVec, IsPrime;
    var gr := GraphOf(pr, oc, inputs);
    OutcomeShape(pr, oc);
    GraphOfOk(pr, oc, inputs);
    SystemSplits(pr, f, seeds, oc, inputs, extra, xs);
    SystemSplits(pr, f, seeds, oc, inputs, extra, recovery);
    GeSolved(pr, f, seeds, gr, oc.deferRows, extra, rows, pivots, PullBlocks(xs, gr.colMap));
    GeSolved(pr, f, seeds, gr, oc.deferRows, extra, rows, pivots, PullBlocks(recovery, gr.colMap));
    if Satisfied(pr, f, seeds, oc.gens, inputs, xs) {
      PeeledDetermine(gr, xs, recovery);
    }
  }
}
