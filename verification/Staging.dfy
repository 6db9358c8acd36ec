/** The first parts of the solver on what one solve works on: the first solve, or one after a failure
    (src/fec/Wirehair.cpp:4476-4527). */
module Staging {
  import opened ColumnIterator
  import opened CheckMatrix
  import opened PeelState
  import opened PeelOutcome
  import opened Blocks
  import opened Compression
  import opened Diagonal
  import opened Dense
  import opened DensePass
  import opened GaloisField
  import opened Elimination
  import opened Peeling
  import opened Compressing
  import opened Triangle
  import opened CheckSystem
  import opened Assembly
  import opened Recovery

  /** What one solve works on: the graph, the rows and columns that are listed as deferred, and the columns an earlier
      solve deferred, which are marked so but no longer listed. */
  datatype Stage = Stage(gr: Graph, deferRows: seq<nat>, deferCols: seq<nat>, stale: seq<nat>)

  ghost predicate StageOk(pr: Params, st: Stage) {
    && pr.Valid() && GraphOk(st.gr) && Triangular(st.gr) && Apart(st.gr) && Stale(st.gr, st.stale)
    && st.gr.colMap == MixMap(pr, st.deferCols) && st.gr.width == pr.n + pr.M() && |st.gr.vecs| == pr.n
    && |st.deferCols| <= |st.deferRows| && (forall t :: 0 <= t < |st.deferRows| ==> st.deferRows[t] < pr.n)
    && (forall r: nat :: r < pr.n ==> r in st.gr.order || r in st.deferRows)
    && (forall c: nat :: c < pr.n ==> c in st.gr.solved || c in st.deferCols || c in st.stale)
  }

  /** The graph once the deferred columns are no longer listed: only mix columns are left for elimination. */
  ghost function LostGraph(pr: Params, oc: Outcome, inputs: seq<Block>): Graph
    requires OutcomeOk(pr, oc)
  {
    GraphOf(pr, oc, inputs).(colMap := MixMap(pr, []))
  }

  ghost function StageOf(pr: Params, oc: Outcome, inputs: seq<Block>, again: bool): Stage
    requires OutcomeOk(pr, oc)
  {
    if again then Stage(LostGraph(pr, oc, inputs), oc.deferRows, [], oc.deferCols)
    else Stage(GraphOf(pr, oc, inputs), oc.deferRows, oc.deferCols, [])
  }

  lemma MapIs(pr: Params, oc: Outcome)
    requires OutcomeOk(pr, oc)
    ensures ColMap(pr, oc) == MixMap(pr, oc.deferCols)
  {
    hide Lowest, IsPrime, Distinct;
  }

  lemma StageIsOk(pr: Params, oc: Outcome, inputs: seq<Block>, again: bool)
    requires OutcomeOk(pr, oc) && |inputs| == pr.n
    ensures StageOk(pr, StageOf(pr, oc, inputs, again)) && GraphOk(GraphOf(pr, oc, inputs))
  {
    hide RowVec, RowOk, Lowest, IsPrime, Triangular;
    GraphOfOk(pr, oc, inputs);
    MapIs(pr, oc);
    PartitionedApart(GraphOf(pr, oc, inputs));
    LostIsOk(pr, oc, inputs);
  }

  lemma LostIsOk(pr: Params, oc: Outcome, inputs: seq<Block>)
    requires OutcomeOk(pr, oc) && |inputs| == pr.n
    requires GraphOk(GraphOf(pr, oc, inputs)) && Triangular(GraphOf(pr, oc, inputs))
    ensures var gr := LostGraph(pr, oc, inputs); GraphOk(gr) && Triangular(gr) && Apart(gr) && Stale(gr, oc.deferCols)
  {
    hide RowVec, RowOk, Lowest, IsPrime;
    var all, gr := oc.solved + oc.deferCols, LostGraph(pr, oc, inputs);
    forall i, j | 0 <= i < j < |oc.solved| ensures oc.solved[i] != oc.solved[j] {
      assert all[i] != all[j];
    }
    forall g, h | 0 <= g < h < |oc.deferCols| ensures oc.deferCols[g] != oc.deferCols[h] {
      assert all[|oc.solved| + g] != all[|oc.solved| + h];
    }
    forall g | 0 <= g < |oc.deferCols| ensures oc.deferCols[g] !in oc.solved {
      forall i | 0 <= i < |oc.solved| ensures oc.solved[i] != oc.deferCols[g] {
        assert all[i] != all[|oc.solved| + g];
      }
    }
  }

  /** Stale columns carry the mark and the elimination column the earlier solve gave them. */
  ghost predicate Leftover(cols: seq<PeelColumn>, stale: seq<nat>) {
    forall g :: 0 <= g < |stale| ==> stale[g] < |cols| && cols[stale[g]].mark == Deferred && cols[stale[g]].slot == g
  }

  // ---- (2) Compression ----

  lemma JoinedShape(comp: Compressor, gr: Graph, deferRows: seq<nat>, deferCols: seq<nat>)
    requires comp.Joined(gr, deferRows, deferCols)
    ensures GraphOk(gr) && 0 < comp.pr.d && comp.pr.Valid()
    ensures |gr.vecs| == |gr.inputs| == comp.pr.n && gr.width == comp.pr.n + comp.pr.M()
    ensures gr.colMap == MixMap(comp.pr, deferCols) && |gr.colMap| == |deferCols| + comp.pr.M()
    ensures comp.peel.deferCount == |deferCols|
    ensures forall t :: 0 <= t < |deferRows| ==> deferRows[t] < comp.pr.n
    ensures forall g :: 0 <= g < |deferCols| ==> deferCols[g] < comp.pr.n
    ensures forall j :: 0 <= j < |gr.order| ==> gr.solved[j] < comp.pr.n
    ensures forall j :: 0 <= j < |gr.order| ==> gr.order[j] < comp.pr.n
    ensures |comp.peel.cols| == comp.pr.n <= |comp.peel.rows|
    ensures forall r :: 0 <= r < comp.pr.n ==>
              RowOk(comp.pr, comp.peel.rows[r].gen) && gr.vecs[r] == RowVec(comp.pr, comp.peel.rows[r].gen)
  {
    hide IsPrime, RowOk, RowVec, Wired;
    var peel := comp.peel;
    DeferredRowAt(gr, deferRows, deferCols, peel.rows, peel.cols, peel.refs, peel.headRows, peel.deferHeadRows,
                  peel.deferHeadColumns, 0);
    ReferenceAt(gr, deferRows, deferCols, peel.rows, peel.cols, peel.refs, peel.headRows, peel.deferHeadRows,
                peel.deferHeadColumns, 0);
  }

  /** The Compression matrix, complete: peeled rows compressed, deferred rows reduced. */
  method CompressPeeled(comp: Compressor, extra: nat, ghost st: Stage)
    requires comp.Joined(st.gr, st.deferRows, st.deferCols) && StageOk(comp.pr, st) && comp.Loaded(st.gr)
    requires |comp.recovery| == st.gr.width + 1 && Leftover(comp.peel.cols, st.stale)
    modifies comp, comp.peel`rows, comp.peel`cols
    ensures comp.Joined(st.gr, st.deferRows, st.deferCols)
    ensures comp.inputs == old(comp.inputs) && |comp.recovery| == st.gr.width + 1
    ensures SameIds(old(comp.peel.rows), comp.peel.rows) && Leftover(comp.peel.cols, st.stale)
    ensures comp.colMap == st.gr.colMap && |comp.rowMap| == |st.gr.colMap| + extra && |comp.spare| == extra + 1
    ensures |comp.ge| == comp.pr.d + |st.deferCols|
    ensures forall r :: 0 <= r < |comp.ge| ==> comp.ge[r] == NoBits(|st.gr.colMap|)
    ensures |comp.compress| == comp.pr.n
    ensures forall k :: 0 <= k < |st.deferRows| ==>
              comp.compress[st.deferRows[k]] == Reduce(st.gr, st.gr.vecs[st.deferRows[k]], |st.gr.order|)
    ensures forall j :: 0 <= j < |st.gr.order| ==> comp.compress[st.gr.order[j]] == CompressRow(st.gr, j)
    ensures forall j :: 0 <= j < |st.gr.order| ==> comp.recovery[st.gr.solved[j]] == Temp(st.gr, j)
    ensures forall g :: 0 <= g < |st.deferCols| ==>
              st.deferCols[g] < |comp.peel.cols| && comp.peel.cols[st.deferCols[g]].slot == g
  {
    hide Wired, Params.Valid, RowOk, RowVec, Triangular, MixMap, Reduce, CompressRow, Temp, ReduceValue, Pull,
         DeferPart, XorBits, IsPrime, Apart;
    comp.AllocateMatrix(comp.peel.deferCount, extra);
    JoinedShape(comp, st.gr, st.deferRows, st.deferCols);
    StaleUnlisted(comp.pr, st);
    comp.SetDeferredColumns(st.gr, st.deferRows, st.deferCols);
    comp.SetMixingColumnsForDeferredRows(st.gr, st.deferRows, st.deferCols);
    comp.PeelDiagonal(st.gr, st.deferRows, st.deferCols);
  }

  lemma StaleUnlisted(pr: Params, st: Stage)
    requires StageOk(pr, st)
    ensures forall g :: 0 <= g < |st.stale| ==> st.stale[g] !in st.deferCols
  {
    hide Triangular, IsPrime;
    forall g, h | 0 <= g < |st.stale| && 0 <= h < |st.deferCols| ensures st.stale[g] != st.deferCols[h] {
      assert st.gr.colMap[h] == st.deferCols[h] && st.gr.colMap[h] in st.gr.colMap;
    }
  }

  /** Every peel column is solved, listed as deferred, or stale, and knows its place. */
  lemma KnownAll(pr: Params, st: Stage, rows: seq<PeelRow>, cols: seq<PeelColumn>, refs: seq<seq<nat>>,
                 headRows: nat, deferHeadRows: nat, deferHeadColumns: nat)
    requires Wired(st.gr, st.deferRows, st.deferCols, rows, cols, refs, headRows, deferHeadRows, deferHeadColumns)
    requires StageOk(pr, st) && |cols| == pr.n && Leftover(cols, st.stale)
    requires forall g :: 0 <= g < |st.deferCols| ==> st.deferCols[g] < |cols| && cols[st.deferCols[g]].slot == g
    ensures AllKnown(st.gr, st.stale, pr.n, cols)
  {
    hide Triangular, CompressRow, Chain, ColChain, RefersTo, Apart, IsPrime;
    forall c | 0 <= c < pr.n ensures KnownColumn(st.gr, st.stale, cols, c) {
      if c in st.gr.solved {
        var j :| 0 <= j < |st.gr.solved| && st.gr.solved[j] == c;
      } else if c in st.deferCols {
        var g :| 0 <= g < |st.deferCols| && st.deferCols[g] == c;
        assert st.gr.colMap[g] == c;
      } else {
        var g :| 0 <= g < |st.stale| && st.stale[g] == c;
      }
    }
  }

  /** The binary rows a solve eliminates: the dense rows as the dense pass reads them, tied to their mix columns, and as
      many deferred rows as deferred columns are listed. */
  ghost function LightRow(pr: Params, seeds: Seeds, st: Stage, r: nat): (row: Bits)
    requires StageOk(pr, st) && r < pr.d + |st.deferCols|
    ensures |row| == |st.gr.colMap|
  {
    if r < pr.d then
      XorBits(Image(st.gr, st.stale, DenseRow(seeds.dense, pr.d, pr.n, st.gr.width, r)),
              InvertibleRow(seeds.invertible, pr.d, r, |st.deferCols|, |st.gr.colMap|))
    else Reduce(st.gr, st.gr.vecs[st.deferRows[r - pr.d]], |st.gr.order|)
  }

  ghost function LightBits(pr: Params, seeds: Seeds, st: Stage): (ge: seq<Bits>)
    requires StageOk(pr, st)
    ensures |ge| == pr.d + |st.deferCols| && forall r :: 0 <= r < |ge| ==> |ge[r]| == |st.gr.colMap|
  {
    seq(pr.d + |st.deferCols|, r requires 0 <= r < pr.d + |st.deferCols| => LightRow(pr, seeds, st, r))
  }

  /** The binary elimination rows, complete. */
  method FillGe(comp: Compressor, seeds: Seeds, ghost st: Stage)
    requires comp.Joined(st.gr, st.deferRows, st.deferCols)
    requires StageOk(comp.pr, st) && Leftover(comp.peel.cols, st.stale)
    requires comp.colMap == st.gr.colMap && comp.pr.d + |st.deferRows| <= |comp.rowMap|
    requires |comp.ge| == comp.pr.d + |st.deferCols|
    requires forall r :: 0 <= r < |comp.ge| ==> comp.ge[r] == NoBits(|st.gr.colMap|)
    requires |st.deferRows| <= |st.deferCols| + |comp.spare| && |comp.compress| == comp.pr.n
    requires forall k :: 0 <= k < |st.deferRows| ==>
      comp.compress[st.deferRows[k]] == Reduce(st.gr, st.gr.vecs[st.deferRows[k]], |st.gr.order|)
    requires forall j :: 0 <= j < |st.gr.order| ==>
      st.gr.order[j] < comp.pr.n && comp.compress[st.gr.order[j]] == CompressRow(st.gr, j)
    requires forall g :: 0 <= g < |st.deferCols| ==>
      st.deferCols[g] < |comp.peel.cols| && comp.peel.cols[st.deferCols[g]].slot == g
    modifies comp`ge, comp`spare, comp`rowMap
    ensures comp.ge == LightBits(comp.pr, seeds, st) && |comp.rowMap| == old(|comp.rowMap|)
    ensures forall t :: 0 <= t < |st.deferRows| ==> comp.rowMap[comp.pr.d + t] == st.deferRows[t]
  {
    hide Wired, Params.Valid, RowOk, RowVec, MixMap, Reduce, CompressRow, XorBits, InvertibleRow, DenseRow, IsPrime,
         AllKnown, Image, Apart, Stale, Leftover, Triangular;
    var peel := comp.peel;
    JoinedShape(comp, st.gr, st.deferRows, st.deferCols);
    CopyDeferredRows(comp, st.gr, st.deferRows, st.deferCols);
    KnownAll(comp.pr, st, peel.rows, peel.cols, peel.refs, peel.headRows, peel.deferHeadRows, peel.deferHeadColumns);
    ghost var ge0 := comp.ge;
    DeferredWidths(comp.pr, st, comp.ge, comp.spare, comp.compress);
    MultiplyDenseRows(comp, seeds.dense, st.gr, st.stale);
    var ok := AddInvertibleGF2Matrix(comp, seeds.invertible, peel.deferCount);
    ghost var bits := LightBits(comp.pr, seeds, st);
    forall r | 0 <= r < |bits| ensures comp.ge[r] == bits[r] {
      assert bits[r] == LightRow(comp.pr, seeds, st, r);
      if r >= comp.pr.d {
        assert comp.ge[r] == ge0[r];
      }
    }
  }

  lemma DeferredWidths(pr: Params, st: Stage, ge: seq<Bits>, spare: seq<Bits>, compress: seq<Bits>)
    requires StageOk(pr, st) && |ge| == pr.d + |st.deferCols|
    requires |compress| == pr.n && pr.d + |st.deferRows| <= |ge| + |spare|
    requires forall r :: 0 <= r < pr.d ==> |ge[r]| == |st.gr.colMap|
    requires forall t :: 0 <= t < |st.deferRows| ==> MatrixRow(ge, spare, pr.d + t) == compress[st.deferRows[t]]
    requires forall k :: 0 <= k < |st.deferRows| ==>
      compress[st.deferRows[k]] == Reduce(st.gr, st.gr.vecs[st.deferRows[k]], |st.gr.order|)
    ensures forall r :: 0 <= r < |ge| ==> |ge[r]| == |st.gr.colMap|
    ensures forall r :: pr.d <= r < |ge| ==>
      ge[r] == Reduce(st.gr, st.gr.vecs[st.deferRows[r - pr.d]], |st.gr.order|)
  {
    hide Triangular, Reduce, IsPrime, Apart, Stale;
    forall r | pr.d <= r < |ge| ensures ge[r] == Reduce(st.gr, st.gr.vecs[st.deferRows[r - pr.d]], |st.gr.order|) {
      assert MatrixRow(ge, spare, pr.d + (r - pr.d)) == compress[st.deferRows[r - pr.d]];
    }
  }

  /** The compression matrix, and from it the elimination matrix. */
  method Compress(comp: Compressor, seeds: Seeds, extra: nat, ghost st: Stage)
    requires comp.Joined(st.gr, st.deferRows, st.deferCols) && StageOk(comp.pr, st) && comp.Loaded(st.gr)
    requires |comp.recovery| == st.gr.width + 1 && Leftover(comp.peel.cols, st.stale)
    requires |st.deferRows| <= |st.deferCols| + extra + 1
    modifies comp, comp.peel`rows, comp.peel`cols
    ensures comp.Joined(st.gr, st.deferRows, st.deferCols)
    ensures comp.inputs == old(comp.inputs) && |comp.recovery| == st.gr.width + 1
    ensures SameIds(old(comp.peel.rows), comp.peel.rows) && Leftover(comp.peel.cols, st.stale)
    ensures comp.ge == LightBits(comp.pr, seeds, st)
    ensures comp.colMap == st.gr.colMap && |comp.rowMap| == |st.gr.colMap| + extra
    ensures forall t :: 0 <= t < |st.deferRows| ==>
              comp.pr.d + t < |comp.rowMap| && comp.rowMap[comp.pr.d + t] == st.deferRows[t]
    ensures forall j :: 0 <= j < |st.gr.order| ==>
      st.gr.solved[j] < |comp.recovery| && comp.recovery[st.gr.solved[j]] == Temp(st.gr, j)
    ensures forall g :: 0 <= g < |st.deferCols| ==>
              st.deferCols[g] < |comp.peel.cols| && comp.peel.cols[st.deferCols[g]].slot == g
  {
    hide Wired, Params.Valid, RowOk, RowVec, Triangular, MixMap, Reduce, CompressRow, Temp, ReduceValue, LightBits,
         IsPrime, SameIds, Apart, Stale, Leftover;
    JoinedShape(comp, st.gr, st.deferRows, st.deferCols);
    CompressPeeled(comp, extra, st);
    FillGe(comp, seeds, st);
  }

  // ---- (3) Gaussian elimination ----

  lemma HeavyZeroBefore(pr: Params, seeds: Seeds, ge: seq<Bits>, width: nat, extra: nat)
    requires width >= HeavyColumns(pr) && forall r :: 0 <= r < |ge| ==> |ge[r]| == width
    ensures var a, light, fhc := WithHeavy(pr, seeds, ge, width, extra), |ge|, width - HeavyColumns(pr);
            && Rectangular(a, width) && |a| == light + extra + CAT_HEAVY_ROWS
            && (forall r :: light <= r < |a| ==> forall j :: 0 <= j < fhc ==> a[r][j] == ZERO)
            && (forall r :: light <= r < light + extra && r < |a| ==> forall j :: 0 <= j < width ==> a[r][j] == ZERO)
  {
    hide HeavyRow;
    var a, light, fhc := WithHeavy(pr, seeds, ge, width, extra), |ge|, width - HeavyColumns(pr);
    forall r | 0 <= r < |a| ensures |a[r]| == width {
      FullAt(ge, GeHeavy(pr, seeds, extra), fhc, r, if r >= light then r - light else 0);
    }
    forall r, j | light <= r < |a| && 0 <= j < fhc ensures a[r][j] == ZERO {
      FullAt(ge, GeHeavy(pr, seeds, extra), fhc, 0, r - light);
    }
    forall r, j | light <= r < light + extra && 0 <= j < width ensures a[r][j] == ZERO {
      FullAt(ge, GeHeavy(pr, seeds, extra), fhc, 0, r - light);
      assert GeHeavy(pr, seeds, extra)[r - light] == ZeroRow(HeavyColumns(pr));
    }
  }

  /** Elimination of the assembled matrix: it fails exactly when the matrix is singular. */
  method Eliminate'(elim: Eliminator, seeds: Seeds, ghost ge: seq<Bits>) returns (ok: bool)
    requires IsField(elim.f) && elim.comp.ge == ge && |ge| == elim.Light()
    requires forall r :: 0 <= r < |ge| ==> |ge[r]| == elim.Width()
    modifies elim, elim.comp`ge
    ensures elim.firstHeavyColumn + elim.heavyColumns == elim.Width() && elim.heavyColumns == HeavyColumns(elim.comp.pr)
    ensures var a := WithHeavy(elim.comp.pr, seeds, ge, elim.Width(), elim.extra);
            Rectangular(a, elim.Width()) && (!ok <==> Singular(elim.f, a, elim.Width()))
    ensures ok ==> elim.Shaped() && AllListed(elim.pivots, elim.Light(), elim.extra)
    ensures ok ==> Factored(elim.f, WithHeavy(elim.comp.pr, seeds, ge, elim.Width(), elim.extra), elim.Rows(),
                            elim.pivots, elim.Width(), elim.Width())
    ensures ok ==> forall i :: 0 <= i < elim.firstHeavyColumn ==> elim.pivots[i] < elim.Light()
  {
    hide IsField, HeavyRow, Factored, Singular, AllListed;
    var pr := elim.comp.pr;
    elim.heavyColumns := HeavyColumns(pr);
    elim.firstHeavyColumn := elim.Width() - HeavyColumns(pr);
    SetHeavyRows(elim, seeds.heavy);
    assert elim.heavy == GeHeavy(pr, seeds, elim.extra);
    ghost var a := WithHeavy(pr, seeds, ge, elim.Width(), elim.extra);
    HeavyZeroBefore(pr, seeds, ge, elim.Width(), elim.extra);
    elim.SetupTriangle(a);
    ok := elim.Triangle(a);
    if ok {
      AllPivots(elim.f, a, elim.Rows(), elim.pivots, elim.Width(), elim.Light(), elim.extra);
    }
  }

  lemma AllPivots(f: Tables, a: seq<Row>, rows: seq<Row>, pivots: seq<nat>, n: nat, light: nat, extra: nat)
    requires IsField(f) && Factored(f, a, rows, pivots, n, n) && AllListed(pivots, light, extra)
    requires n == light + CAT_HEAVY_ROWS && Rectangular(a, n)
    ensures !Singular(f, a, n)
  {
    hide IsField, Factored, Singular;
    FactoredRegular(f, a, rows, pivots, n);
  }
}
