/** The whole Wirehair check matrix: the equations of fed rows, dense rows and heavy rows, and what peeling and
    compression leave of them for elimination (src/fec/Wirehair.cpp). */
module CheckSystem {
  import opened ColumnIterator
  import opened CheckMatrix
  import opened Blocks
  import opened Compression
  import opened PeelOutcome
  import opened DensePass
  import opened GaloisField
  import opened Triangle

  /** The generator word streams the two sides seed alike. */
  datatype Seeds = Seeds(dense: nat -> nat, heavy: nat -> nat, invertible: nat -> nat)

  // ---- Heavy rows ----

  function HeavyColumns(pr: Params): nat {
    if pr.M() < CAT_HEAVY_MAX_COLS then pr.M() else CAT_HEAVY_MAX_COLS
  }

  /** Words drawn before heavy row i. */
  function HeavyPos(hc: nat, i: nat): nat {
    if i == 0 then 0 else HeavyPos(hc, i - 1) + (hc + 3) / 4
  }

  /** Heavy row i: random bytes, four to a word, and an identity matrix in the last columns. */
  function HeavyRow(stream: nat -> nat, hc: nat, i: nat): (r: Row)
    ensures |r| == hc
  {
    seq(hc, c requires 0 <= c < hc =>
      if c + CAT_HEAVY_ROWS >= hc then (if c + CAT_HEAVY_ROWS - hc == i then ONE else ZERO)
      else ByteOf(Half(stream(HeavyPos(hc, i) + c / 4), 8 * (c % 4))))
  }

  // ---- Dense rows ----

  /** Words drawn before row i of the invertible matrix: two for every 64 columns. */
  function InvertiblePos(d: nat, i: nat): nat {
    if i == 0 then 0 else InvertiblePos(d, i - 1) + 2 * ((d + 63) / 64)
  }

  /** Entry (i, j) of the d by d invertible matrix. */
  function InvertibleBit(stream: nat -> nat, d: nat, i: nat, j: nat): bool {
    if d < 512 then BitOf(stream(InvertiblePos(d, i) + 2 * (j / 64) + (j % 64) / 32), j % 32)
    else i == j
  }

  /** Row i of that matrix, added at column offset. */
  function InvertibleRow(stream: nat -> nat, d: nat, i: nat, offset: nat, width: nat): (r: Bits)
    ensures |r| == width
  {
    seq(width, c requires 0 <= c < width => offset <= c < offset + d && InvertibleBit(stream, d, i, c - offset))
  }

  /** Dense row rho of the check matrix: its window rows over the peel columns, and its tie to the first d mix
      columns. */
  ghost function DenseCheck(pr: Params, seeds: Seeds, rho: nat): (v: Bits)
    requires 0 < pr.d && rho < pr.d
    ensures |v| == pr.n + pr.M()
  {
    XorBits(DenseRow(seeds.dense, pr.d, pr.n, pr.n + pr.M(), rho),
            InvertibleRow(seeds.invertible, pr.d, rho, pr.n, pr.n + pr.M()))
  }

  // ---- The equations ----

  ghost function HeavyCheck(pr: Params, seeds: Seeds, i: nat): (r: Row)
    ensures |r| == pr.n + pr.M()
  {
    ZeroRow(pr.n + pr.M() - HeavyColumns(pr)) + HeavyRow(seeds.heavy, HeavyColumns(pr), i)
  }

  /** xs satisfies every check equation: each fed row sums to its block, dense and heavy rows sum to zero. */
  ghost predicate Satisfied(pr: Params, f: Tables, seeds: Seeds, gens: seq<RowGen>, inputs: seq<Block>, xs: seq<Block>)
    requires pr.Valid() && |gens| == |inputs| == pr.n && |xs| == pr.n + pr.M()
    requires forall r :: 0 <= r < pr.n ==> RowOk(pr, gens[r])
  {
    && (forall r :: 0 <= r < pr.n ==> Dot(RowVec(pr, gens[r]), xs, pr.n + pr.M()) == inputs[r])
    && (forall rho :: 0 <= rho < pr.d ==> Dot(DenseCheck(pr, seeds, rho), xs, pr.n + pr.M()) == Zero())
    && (forall i :: 0 <= i < CAT_HEAVY_ROWS ==> RowDot(f, HeavyCheck(pr, seeds, i), xs, pr.n + pr.M()) == Zero())
  }

  // ---- What is left for elimination ----

  /** The check equation behind binary elimination row r: the dense rows, then the deferred rows. */
  ghost function GeCheck(pr: Params, seeds: Seeds, gr: Graph, deferRows: seq<nat>, r: nat): (v: Bits)
    requires 0 < pr.d && GraphOk(gr) && gr.width == pr.n + pr.M()
    requires forall t :: 0 <= t < |deferRows| ==> deferRows[t] < |gr.vecs|
    requires r < pr.d + |deferRows|
    ensures |v| == gr.width
  {
    if r < pr.d then DenseCheck(pr, seeds, r) else gr.vecs[deferRows[r - pr.d]]
  }

  /** The block it sums to. */
  ghost function GeInput(pr: Params, gr: Graph, deferRows: seq<nat>, r: nat): Block
    requires GraphOk(gr) && forall t :: 0 <= t < |deferRows| ==> deferRows[t] < |gr.vecs|
    requires r < pr.d + |deferRows|
  {
    if r < pr.d then Zero() else gr.inputs[deferRows[r - pr.d]]
  }

  /** The binary rows, reduced. */
  ghost function GeBits(pr: Params, seeds: Seeds, gr: Graph, deferRows: seq<nat>): (ge: seq<Bits>)
    requires 0 < pr.d && GraphOk(gr) && gr.width == pr.n + pr.M()
    requires forall t :: 0 <= t < |deferRows| ==> deferRows[t] < |gr.vecs|
    ensures |ge| == pr.d + |deferRows| && forall r :: 0 <= r < |ge| ==> |ge[r]| == |gr.colMap|
  {
    seq(pr.d + |deferRows|, r requires 0 <= r < pr.d + |deferRows| =>
      Reduce(gr, GeCheck(pr, seeds, gr, deferRows, r), |gr.order|))
  }

  /** The heavy matrix: rows kept for extra blocks, then the heavy rows. */
  function GeHeavyRow(pr: Params, seeds: Seeds, extra: nat, h: nat): (row: Row)
    ensures |row| == HeavyColumns(pr)
  {
    if h < extra then ZeroRow(HeavyColumns(pr)) else HeavyRow(seeds.heavy, HeavyColumns(pr), h - extra)
  }

  function GeHeavy(pr: Params, seeds: Seeds, extra: nat): (rows: seq<Row>)
    ensures |rows| == extra + CAT_HEAVY_ROWS && forall h :: 0 <= h < |rows| ==> |rows[h]| == HeavyColumns(pr)
  {
    seq(extra + CAT_HEAVY_ROWS, h requires 0 <= h < extra + CAT_HEAVY_ROWS =>
      GeHeavyRow(pr, seeds, extra, h))
  }

  /** The value each elimination row must take. */
  ghost function GeValue(pr: Params, seeds: Seeds, gr: Graph, deferRows: seq<nat>, r: nat): Block
    requires 0 < pr.d && GraphOk(gr) && gr.width == pr.n + pr.M()
    requires forall t :: 0 <= t < |deferRows| ==> deferRows[t] < |gr.vecs|
  {
    if r < pr.d + |deferRows| then
      ReduceValue(gr, GeCheck(pr, seeds, gr, deferRows, r), GeInput(pr, gr, deferRows, r), |gr.order|)
    else Zero()
  }

  /** xs over the elimination columns satisfies every elimination row. */
  ghost predicate GeHolds(pr: Params, f: Tables, seeds: Seeds, gr: Graph, deferRows: seq<nat>, extra: nat,
                          ge: seq<Block>)
    requires 0 < pr.d && GraphOk(gr) && gr.width == pr.n + pr.M()
    requires forall t :: 0 <= t < |deferRows| ==> deferRows[t] < |gr.vecs|
    requires |ge| == |gr.colMap| >= HeavyColumns(pr)
  {
    var rows := FullRows(GeBits(pr, seeds, gr, deferRows), GeHeavy(pr, seeds, extra), |gr.colMap| - HeavyColumns(pr));
    && Rect(rows, |gr.colMap|)
    && forall r :: 0 <= r < |rows| ==> RowDot(f, rows[r], ge, |gr.colMap|) == GeValue(pr, seeds, gr, deferRows, r)
  }

  ghost predicate Rect(rows: seq<Row>, n: nat) {
    forall r :: 0 <= r < |rows| ==> |rows[r]| == n
  }

  // A row with nothing but its last columns weighs only the last blocks.
  lemma {:induction false} LastColumns(f: Tables, h: Row, z: nat, z': nat, xs: seq<Block>, ys: seq<Block>, k: nat)
    requires IsField(f) && k <= |h| && |xs| == z + |h| && |ys| == z' + |h|
    requires xs[z..] == ys[z'..]
    ensures RowDot(f, ZeroRow(z) + h, xs, z + k) == RowDot(f, ZeroRow(z') + h, ys, z' + k)
  {
    hide IsField, Add, Scale;
    if k == 0 {
      RowDotNone(f, ZeroRow(z) + h, xs, z);
      RowDotNone(f, ZeroRow(z') + h, ys, z');
    } else {
      LastColumns(f, h, z, z', xs, ys, k - 1);
      assert xs[z + k - 1] == xs[z..][k - 1] && ys[z' + k - 1] == ys[z'..][k - 1];
    }
  }

  /** The whole system says of xs that the peeled rows hold and that its elimination columns satisfy the elimination
      rows. */
  lemma {:induction false} SystemSplits(pr: Params, f: Tables, seeds: Seeds, oc: Outcome, inputs: seq<Block>,
                                        extra: nat, xs: seq<Block>)
    requires IsField(f) && OutcomeOk(pr, oc) && |inputs| == pr.n && |xs| == pr.n + pr.M()
    ensures var gr := GraphOf(pr, oc, inputs);
            && GraphOk(gr)
            && (Satisfied(pr, f, seeds, oc.gens, inputs, xs) <==>
                PeeledHold(gr, xs) && GeHolds(pr, f, seeds, gr, oc.deferRows, extra, PullBlocks(xs, gr.colMap)))
  {
    hide IsField, Params.Valid, OutcomeOk, RowOk, Dot, RowDot, RowVec, DenseCheck, Lift, FullRows, ReduceValue, Reduce,
         Triangular, Partitioned, HeavyRow, RowHolds, GeValue, Satisfied;
    var gr := GraphOf(pr, oc, inputs);
    OutcomeShape(pr, oc);
    GraphOfOk(pr, oc, inputs);
    var ge := PullBlocks(xs, gr.colMap);
    var rows := FullRows(GeBits(pr, seeds, gr, oc.deferRows), GeHeavy(pr, seeds, extra),
                         |gr.colMap| - HeavyColumns(pr));
    SystemShape(pr, seeds, gr, oc.deferRows, extra);
    if PeeledHold(gr, xs) {
      forall r | 0 <= r < |rows|
        ensures RowDot(f, rows[r], ge, |gr.colMap|) == GeValue(pr, seeds, gr, oc.deferRows, r) <==>
                  RowHolds(pr, f, seeds, gr, oc.deferRows, extra, xs, r)
      {
        RowReduced(pr, f, seeds, oc, inputs, extra, xs, r);
      }
    }
    SplitRows(pr, f, seeds, oc, inputs, extra, xs);
  }

  /** What the equation behind elimination row r says of xs. */
  ghost predicate RowHolds(pr: Params, f: Tables, seeds: Seeds, gr: Graph, deferRows: seq<nat>, extra: nat,
                           xs: seq<Block>, r: nat)
    requires 0 < pr.d && GraphOk(gr) && gr.width == pr.n + pr.M() == |xs|
    requires forall t :: 0 <= t < |deferRows| ==> deferRows[t] < |gr.vecs|
  {
    if r < pr.d + |deferRows| then
      Dot(GeCheck(pr, seeds, gr, deferRows, r), xs, gr.width) == GeInput(pr, gr, deferRows, r)
    else if r < pr.d + |deferRows| + extra then true
    else RowDot(f, HeavyCheck(pr, seeds, r - pr.d - |deferRows| - extra), xs, gr.width) == Zero()
  }

  lemma OutcomeShape(pr: Params, oc: Outcome)
    requires OutcomeOk(pr, oc)
    ensures pr.Valid() && 0 < pr.d && |oc.gens| == pr.n && |oc.deferRows| == |oc.deferCols|
    ensures forall t :: 0 <= t < |oc.deferRows| ==> oc.deferRows[t] < pr.n
    ensures forall r :: 0 <= r < pr.n ==> RowOk(pr, oc.gens[r])
    ensures forall j :: 0 <= j < |oc.order| ==> oc.order[j] < pr.n
    ensures forall r: nat :: r < pr.n ==> r in oc.order || r in oc.deferRows
  {
    hide IsPrime, Distinct, Lowest, RowOk;
  }

  lemma SystemShape(pr: Params, seeds: Seeds, gr: Graph, deferRows: seq<nat>, extra: nat)
    requires 0 < pr.d && GraphOk(gr) && gr.width == pr.n + pr.M()
    requires forall t :: 0 <= t < |deferRows| ==> deferRows[t] < |gr.vecs|
    requires |gr.colMap| >= HeavyColumns(pr)
    ensures var rows :=
              FullRows(GeBits(pr, seeds, gr, deferRows), GeHeavy(pr, seeds, extra), |gr.colMap| - HeavyColumns(pr));
            Rect(rows, |gr.colMap|) && |rows| == pr.d + |deferRows| + extra + CAT_HEAVY_ROWS
  {
    hide GraphOk, Reduce, DenseCheck, HeavyRow;
  }

  // The reduced row and the equation behind it agree.
  lemma RowReduced(pr: Params, f: Tables, seeds: Seeds, oc: Outcome, inputs: seq<Block>, extra: nat, xs: seq<Block>,
                   r: nat)
    requires IsField(f) && OutcomeOk(pr, oc) && |inputs| == pr.n && |xs| == pr.n + pr.M()
    requires var gr := GraphOf(pr, oc, inputs); GraphOk(gr) && PeeledHold(gr, xs)
    requires r < pr.d + |oc.deferRows| + extra + CAT_HEAVY_ROWS
    ensures var gr := GraphOf(pr, oc, inputs);
            var rows := FullRows(GeBits(pr, seeds, gr, oc.deferRows), GeHeavy(pr, seeds, extra),
                                 |gr.colMap| - HeavyColumns(pr));
            && |rows[r]| == |gr.colMap|
            && (RowDot(f, rows[r], PullBlocks(xs, gr.colMap), |gr.colMap|) == GeValue(pr, seeds, gr, oc.deferRows, r)
                <==> RowHolds(pr, f, seeds, gr, oc.deferRows, extra, xs, r))
  {
    hide IsField, Params.Valid, OutcomeOk, RowOk, Dot, RowDot, RowVec, DenseCheck, ReduceValue, Reduce, Triangular,
         Partitioned, HeavyRow, Lowest, PeeledHold, Distinct, PeelCols, MixCols, IsPrime;
    var gr := GraphOf(pr, oc, inputs);
    OutcomeShape(pr, oc);
    GraphOfOk(pr, oc, inputs);
    var ge := PullBlocks(xs, gr.colMap);
    if r < pr.d + |oc.deferRows| {
      var v := GeCheck(pr, seeds, gr, oc.deferRows, r);
      ReducedEquation(gr, v, GeInput(pr, gr, oc.deferRows, r), xs);
      LiftDot(f, Reduce(gr, v, |gr.order|), ge, |gr.colMap|);
    } else {
      var h := r - pr.d - |oc.deferRows|;
      HeavyReduced(pr, f, GeHeavyRow(pr, seeds, extra, h), gr.colMap, |oc.deferCols|, xs);
      if h < extra {
        RowDotNone(f, ZeroRow(|gr.colMap| - HeavyColumns(pr)) + ZeroRow(HeavyColumns(pr)), ge, |gr.colMap|);
      }
    }
  }

  lemma HeavyReduced(pr: Params, f: Tables, h: Row, colMap: seq<nat>, df: nat, xs: seq<Block>)
    requires IsField(f) && |h| == HeavyColumns(pr) && |xs| == pr.n + pr.M() && |colMap| == df + pr.M()
    requires forall g :: 0 <= g < |colMap| ==> colMap[g] < |xs|
    requires forall g :: df <= g < |colMap| ==> colMap[g] == pr.n + g - df
    ensures RowDot(f, ZeroRow(|colMap| - |h|) + h, PullBlocks(xs, colMap), |colMap|)
              == RowDot(f, ZeroRow(|xs| - |h|) + h, xs, |xs|)
  {
    hide IsField, RowDot, ZeroRow, PullBlocks;
    MixTail(xs, colMap, pr.n, df, |h|);
    LastColumns(f, h, |colMap| - |h|, |xs| - |h|, PullBlocks(xs, colMap), xs, |h|);
  }

  lemma MixTail(xs: seq<Block>, colMap: seq<nat>, n: nat, df: nat, k: nat)
    requires df + k <= |colMap| && |xs| == n + |colMap| - df
    requires forall g :: 0 <= g < |colMap| ==> colMap[g] < |xs|
    requires forall g :: df <= g < |colMap| ==> colMap[g] == n + g - df
    ensures PullBlocks(xs, colMap)[|colMap| - k..] == xs[|xs| - k..]
  {
    var a, b := PullBlocks(xs, colMap)[|colMap| - k..], xs[|xs| - k..];
    forall i | 0 <= i < k ensures a[i] == b[i] {
      assert colMap[|colMap| - k + i] == |xs| - k + i;
    }
  }

  lemma SplitRows(pr: Params, f: Tables, seeds: Seeds, oc: Outcome, inputs: seq<Block>, extra: nat, xs: seq<Block>)
    requires OutcomeOk(pr, oc) && |inputs| == pr.n && |xs| == pr.n + pr.M()
    requires GraphOk(GraphOf(pr, oc, inputs))
    ensures Satisfied(pr, f, seeds, oc.gens, inputs, xs) <==>
            (PeeledHold(GraphOf(pr, oc, inputs), xs)
             && AllHold(pr, f, seeds, GraphOf(pr, oc, inputs), oc.deferRows, extra, xs))
  {
    hide IsField, Params.Valid, OutcomeOk, RowOk, Dot, RowDot, RowVec, DenseCheck, Lowest, Distinct, PeelCols, MixCols,
         IsPrime, GraphOk, HeavyCheck;
    var gr := GraphOf(pr, oc, inputs);
    OutcomeShape(pr, oc);
    var df := |oc.deferRows|;
    if Satisfied(pr, f, seeds, oc.gens, inputs, xs) {
      forall r | 0 <= r < pr.d + df + extra + CAT_HEAVY_ROWS
        ensures RowHolds(pr, f, seeds, gr, oc.deferRows, extra, xs, r) {}
    }
    if PeeledHold(gr, xs) && AllHold(pr, f, seeds, gr, oc.deferRows, extra, xs) {
      forall r | 0 <= r < pr.n ensures Dot(RowVec(pr, oc.gens[r]), xs, pr.n + pr.M()) == inputs[r] {
        if r in oc.order {
          var j :| 0 <= j < |oc.order| && oc.order[j] == r;
        } else {
          var t :| 0 <= t < df && oc.deferRows[t] == r;
          assert RowHolds(pr, f, seeds, gr, oc.deferRows, extra, xs, pr.d + t);
        }
      }
      forall rho | 0 <= rho < pr.d ensures Dot(DenseCheck(pr, seeds, rho), xs, pr.n + pr.M()) == Zero() {
        assert RowHolds(pr, f, seeds, gr, oc.deferRows, extra, xs, rho);
      }
      forall i | 0 <= i < CAT_HEAVY_ROWS ensures RowDot(f, HeavyCheck(pr, seeds, i), xs, pr.n + pr.M()) == Zero() {
        assert RowHolds(pr, f, seeds, gr, oc.deferRows, extra, xs, pr.d + df + extra + i);
      }
    }
  }

  ghost predicate AllHold(pr: Params, f: Tables, seeds: Seeds, gr: Graph, deferRows: seq<nat>, extra: nat,
                          xs: seq<Block>)
    requires 0 < pr.d && GraphOk(gr) && gr.width == pr.n + pr.M() == |xs|
    requires forall t :: 0 <= t < |deferRows| ==> deferRows[t] < |gr.vecs|
  {
    forall r :: 0 <= r < pr.d + |deferRows| + extra + CAT_HEAVY_ROWS ==>
      RowHolds(pr, f, seeds, gr, deferRows, extra, xs, r)
  }
}
