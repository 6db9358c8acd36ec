/** InitializeColumnValues and MultiplyDenseValues: the block each elimination row must equal (src/fec/Wirehair.cpp). */
module ColumnValues {
  import opened ColumnIterator
  import opened CheckMatrix
  import opened PeelState
  import opened Blocks
  import opened Compression
  import opened PeelOutcome
  import opened Dense
  import opened DensePass
  import opened Compressing
  import opened Triangle
  import opened CheckSystem
  import opened Assembly

  /** Flipping one coefficient adds that column's temporary block, if the column was peeled. */
  lemma ToggleValue(gr: Graph, v: Bits, rhs: Block, c: nat)
    requires GraphOk(gr) && |v| == gr.width && c < gr.width
    ensures ReduceValue(gr, Toggle(v, c), rhs, |gr.order|) ==
            Add(ReduceValue(gr, v, rhs, |gr.order|), ReduceValue(gr, Unit(gr.width, c), Zero(), |gr.order|))
  {
    hide Add, ReduceValue;
    ToggleXor(v, c);
    ReduceValueXor(gr, v, Unit(gr.width, c), rhs, Zero(), |gr.order|);
    AddZero(rhs);
  }

  /** The peeled columns' slots hold their temporary blocks, and every peel column is known. */
  ghost predicate TempsHeld(gr: Graph, n: nat, cols: seq<PeelColumn>, recovery: seq<Block>) {
    && GraphOk(gr) && Apart(gr) && n <= |cols| && n <= gr.width <= |recovery|
    && (forall j :: 0 <= j < |gr.order| ==> recovery[gr.solved[j]] == Temp(gr, j))
    && exists stale :: AllKnown(gr, stale, n, cols)
  }

  lemma ColumnValue(gr: Graph, n: nat, cols: seq<PeelColumn>, recovery: seq<Block>, c: nat)
    requires TempsHeld(gr, n, cols, recovery) && c < n
    ensures c < |cols| && c < |recovery| && c < gr.width && GraphOk(gr)
    ensures ReduceValue(gr, Unit(gr.width, c), Zero(), |gr.order|) == if cols[c].mark == Solved then recovery[c]
                                                                      else Zero()
  {
    hide ReduceValue, Reduce, Temp, CompressRow, Apart;
    var stale :| AllKnown(gr, stale, n, cols);
    assert KnownColumn(gr, stale, cols, c);
    if cols[c].mark == Solved {
      var j :| 0 <= j < |gr.order| && gr.solved[j] == c && cols[c].slot == gr.order[j];
      ReduceSolved(gr, j, |gr.order|);
    } else if g :| 0 <= g < |gr.colMap| && gr.colMap[g] == c && cols[c].slot == g {
      ReduceMapped(gr, g, |gr.order|);
    } else {
      ReduceStale(gr, c, |gr.order|);
    }
  }

  // ---- Deferred rows ----

  /** The first k peel columns of a row. */
  ghost function FirstColumns(pr: Params, g: RowGen, k: nat): (v: Bits)
    requires RowOk(pr, g) && k <= g.weight
    ensures |v| == pr.n + pr.M()
  {
    seq(pr.n + pr.M(), c requires 0 <= c < pr.n + pr.M() => c in PeelCols(pr, g)[..k])
  }

  lemma NextColumns(pr: Params, g: RowGen, k: nat)
    requires pr.Valid() && RowOk(pr, g) && k < g.weight
    ensures FirstColumns(pr, g, k + 1) == Toggle(FirstColumns(pr, g, k), PeelCols(pr, g)[k])
  {
    hide Params.Valid, RowOk, PeelCols, MixCols;
    ColsDistinct(pr, g);
    var all := PeelCols(pr, g);
    assert all[..k + 1] == all[..k] + [all[k]];
  }

  /** Mix columns add nothing: the peel columns alone give the row's reduced value. */
  lemma AllColumns(pr: Params, g: RowGen, gr: Graph, rhs: Block)
    requires pr.Valid() && RowOk(pr, g) && GraphOk(gr) && gr.width == pr.n + pr.M()
    requires forall j :: 0 <= j < |gr.order| ==> gr.solved[j] < pr.n
    ensures ReduceValue(gr, FirstColumns(pr, g, g.weight), rhs, |gr.order|)
              == ReduceValue(gr, RowVec(pr, g), rhs, |gr.order|)
    ensures ReduceValue(gr, FirstColumns(pr, g, 0), rhs, |gr.order|) == rhs
  {
    hide Params.Valid, PeelCols, MixCols, ReduceValue, Reduce, Add;
    var v, all := FirstColumns(pr, g, g.weight), RowVec(pr, g);
    var mix := XorBits(v, all);
    assert PeelCols(pr, g)[..g.weight] == PeelCols(pr, g);
    assert all == XorBits(v, mix);
    ReduceUnsolved(gr, mix, Zero(), |gr.order|);
    ReduceValueXor(gr, v, mix, rhs, Zero(), |gr.order|);
    AddZero(rhs);
    AddZero(ReduceValue(gr, v, rhs, |gr.order|));
    ReduceUnsolved(gr, FirstColumns(pr, g, 0), rhs, |gr.order|);
  }

  /** The value of a deferred row: its input plus the temporary block of every peeled column it has. */
  method DeferredValue(comp: Compressor, r: nat, ghost gr: Graph) returns (dest: Block)
    requires TempsHeld(gr, comp.pr.n, comp.peel.cols, comp.recovery)
    requires gr.width == comp.pr.n + comp.pr.M() && comp.pr.Valid()
    requires r < |comp.peel.rows| && r < |comp.inputs| && RowOk(comp.pr, comp.peel.rows[r].gen)
    requires forall j :: 0 <= j < |gr.order| ==> gr.solved[j] < comp.pr.n
    ensures dest == ReduceValue(gr, RowVec(comp.pr, comp.peel.rows[r].gen), comp.inputs[r], |gr.order|)
  {
    hide TempsHeld, ReduceValue, Add, Params.Valid, PeelCols, MixCols, RowVec, FirstColumns, IsPrime;
    var g := comp.peel.rows[r].gen;
    var input := comp.inputs[r];
    var combo := true;              // the input block has not been copied to the destination yet
    dest := Zero();
    if r == comp.pr.n - 1 {
      dest := input;
      combo := false;
    }
    var column, weight := g.x0, g.weight;
    ghost var k, all := 0, PeelCols(comp.pr, g);
    TempsGraph(gr, comp.pr.n, comp.peel.cols, comp.recovery);
    AllColumns(comp.pr, g, gr, input);
    while true
      invariant weight == g.weight - k && k < g.weight && column == all[k]
      invariant (if combo then input else dest) == ReduceValue(gr, FirstColumns(comp.pr, g, k), input, |gr.order|)
      decreases weight
    {
      ColumnValue(gr, comp.pr.n, comp.peel.cols, comp.recovery, column);
      NextColumns(comp.pr, g, k);
      ToggleValue(gr, FirstColumns(comp.pr, g, k), input, column);
      if comp.peel.cols[column].mark == Solved {
        if !combo {
          dest := Add(dest, comp.recovery[column]);
        } else {
          dest := Add(input, comp.recovery[column]);
          combo := false;
        }
      } else {
        AddZero(if combo then input else dest);
      }
      k := k + 1;
      weight := weight - 1;
      if weight <= 0 { break; }
      PeelColsStep(comp.pr, g, k - 1);
      column := NextColumn(column, g.a, comp.pr.n, comp.pr.p);
    }
    if combo {
      dest := input;
    }
  }

  lemma TempsGraph(gr: Graph, n: nat, cols: seq<PeelColumn>, recovery: seq<Block>)
    requires TempsHeld(gr, n, cols, recovery)
    ensures GraphOk(gr) && n <= gr.width <= |recovery|
  {}

  // ---- Every row ----

  /** Values at the elimination columns, by pivot. */
  ghost predicate Started(pr: Params, seeds: Seeds, gr: Graph, deferRows: seq<nat>, pivots: seq<nat>,
                          rowMap: seq<nat>, recovery: seq<Block>, k: nat) {
    && 0 < pr.d && GraphOk(gr) && gr.width == pr.n + pr.M()
    && (forall t :: 0 <= t < |deferRows| ==> deferRows[t] < |gr.vecs|)
    && k <= |pivots| == |gr.colMap| && gr.width <= |recovery|
    && (forall i :: 0 <= i < k ==> recovery[gr.colMap[i]] == StartValue(pr, seeds, gr, deferRows, pivots[i]))
    && (forall i :: 0 <= i < k && pivots[i] < pr.d ==> pivots[i] < |rowMap| && rowMap[pivots[i]] == gr.colMap[i])
  }

  /** Dense rows start from zero; their peeled columns are added by the next pass. */
  ghost function StartValue(pr: Params, seeds: Seeds, gr: Graph, deferRows: seq<nat>, r: nat): Block
    requires 0 < pr.d && GraphOk(gr) && gr.width == pr.n + pr.M()
    requires forall t :: 0 <= t < |deferRows| ==> deferRows[t] < |gr.vecs|
  {
    if r < pr.d then Zero() else GeValue(pr, seeds, gr, deferRows, r)
  }

  lemma StartedNext(pr: Params, seeds: Seeds, gr: Graph, deferRows: seq<nat>, pivots: seq<nat>, rowMap: seq<nat>,
                    rowMap': seq<nat>, recovery: seq<Block>, value: Block, k: nat)
    requires Started(pr, seeds, gr, deferRows, pivots, rowMap, recovery, k)
    requires k < |pivots| && Apart(gr) && Distinct(pivots)
    requires value == StartValue(pr, seeds, gr, deferRows, pivots[k])
    requires |rowMap'| == |rowMap| && pivots[k] < |rowMap|
    requires rowMap' == rowMap[pivots[k] := gr.colMap[k]] || (rowMap' == rowMap && pivots[k] >= pr.d)
    ensures gr.colMap[k] < |recovery|
    ensures Started(pr, seeds, gr, deferRows, pivots, rowMap', recovery[gr.colMap[k] := value], k + 1)
    ensures forall j :: 0 <= j < |gr.order| ==> recovery[gr.colMap[k] := value][gr.solved[j]] == recovery[gr.solved[j]]
  {
    hide StartValue;
    var all := gr.solved + gr.colMap;
    forall i | 0 <= i < |gr.colMap| && i != k ensures gr.colMap[i] != gr.colMap[k] {
      assert all[|gr.solved| + i] != all[|gr.solved| + k];
    }
    forall j | 0 <= j < |gr.solved| ensures gr.solved[j] != gr.colMap[k] {
      assert all[j] != all[|gr.solved| + k];
    }
  }

  lemma TempsKept(gr: Graph, n: nat, cols: seq<PeelColumn>, recovery: seq<Block>, recovery': seq<Block>)
    requires TempsHeld(gr, n, cols, recovery) && |recovery'| == |recovery|
    requires forall j :: 0 <= j < |gr.order| ==> recovery'[gr.solved[j]] == recovery[gr.solved[j]]
    ensures TempsHeld(gr, n, cols, recovery')
  {
    hide AllKnown, Apart, Temp;
  }

  method InitializeColumnValues(elim: Eliminator, comp: Compressor, ghost seeds: Seeds, ghost gr: Graph,
                                ghost deferRows: seq<nat>)
    requires elim.comp == comp && comp.pr.Valid() && elim.df == |deferRows|
    requires TempsHeld(gr, comp.pr.n, comp.peel.cols, comp.recovery) && gr.width == comp.pr.n + comp.pr.M()
    requires forall t :: 0 <= t < |deferRows| ==> deferRows[t] < comp.pr.n
    requires forall j :: 0 <= j < |gr.order| ==> gr.solved[j] < comp.pr.n
    requires |gr.vecs| == |comp.inputs| == comp.pr.n <= |comp.peel.rows|
    requires |gr.inputs| == comp.pr.n && comp.colMap == gr.colMap
    requires forall t :: 0 <= t < |deferRows| ==> comp.inputs[deferRows[t]] == gr.inputs[deferRows[t]]
    requires forall r :: 0 <= r < comp.pr.n ==>
               RowOk(comp.pr, comp.peel.rows[r].gen) && gr.vecs[r] == RowVec(comp.pr, comp.peel.rows[r].gen)
    requires |elim.pivots| == |gr.colMap| == elim.Width() && Distinct(elim.pivots)
    requires AllListed(elim.pivots, elim.Light(), elim.extra)
    requires |comp.rowMap| == elim.Width() + elim.extra
    requires forall t :: 0 <= t < |deferRows| ==> comp.rowMap[comp.pr.d + t] == deferRows[t]
    modifies comp`recovery, comp`rowMap
    ensures |comp.recovery| == old(|comp.recovery|) && TempsHeld(gr, comp.pr.n, comp.peel.cols, comp.recovery)
    ensures |comp.rowMap| == old(|comp.rowMap|)
    ensures Started(comp.pr, seeds, gr, deferRows, elim.pivots, comp.rowMap, comp.recovery, |elim.pivots|)
  {
    hide TempsHeld, Started, StartValue, Params.Valid, RowVec, Apart, RowOk, IsPrime;
    TempsGraph(gr, comp.pr.n, comp.peel.cols, comp.recovery);
    assert Apart(gr) && comp.pr.d > 0 by { NeedParts(comp.pr, gr, comp.pr.n, comp.peel.cols, comp.recovery); }
    StartedNone(comp.pr, seeds, gr, deferRows, elim.pivots, comp.rowMap, comp.recovery);
    for k := 0 to |comp.colMap|
      invariant |comp.recovery| == old(|comp.recovery|) && |comp.rowMap| == old(|comp.rowMap|)
      invariant TempsHeld(gr, comp.pr.n, comp.peel.cols, comp.recovery)
      invariant Started(comp.pr, seeds, gr, deferRows, elim.pivots, comp.rowMap, comp.recovery, k)
      invariant forall t :: 0 <= t < |deferRows| ==> comp.rowMap[comp.pr.d + t] == deferRows[t]
    {
      var dest, r := comp.colMap[k], elim.pivots[k];
      assert r in elim.pivots;
      ghost var rowMap0, recovery0 := comp.rowMap, comp.recovery;
      var value;
      if r < comp.pr.d || r >= elim.Light() + elim.extra {
        value := Zero();
        comp.rowMap := comp.rowMap[r := dest];
      } else {
        assert comp.rowMap[comp.pr.d + (r - comp.pr.d)] == deferRows[r - comp.pr.d];
        value := DeferredValue(comp, comp.rowMap[r], gr);
      }
      assert value == StartValue(comp.pr, seeds, gr, deferRows, r) by {
        ValueIs(comp.pr, seeds, gr, deferRows, r, value, elim.extra);
      }
      StartedNext(comp.pr, seeds, gr, deferRows, elim.pivots, rowMap0, comp.rowMap, recovery0, value, k);
      comp.recovery := comp.recovery[dest := value];
      TempsKept(gr, comp.pr.n, comp.peel.cols, recovery0, comp.recovery);
    }
  }

  lemma NeedParts(pr: Params, gr: Graph, n: nat, cols: seq<PeelColumn>, recovery: seq<Block>)
    requires TempsHeld(gr, n, cols, recovery) && pr.Valid()
    ensures Apart(gr) && pr.d > 0
  {}

  lemma StartedNone(pr: Params, seeds: Seeds, gr: Graph, deferRows: seq<nat>, pivots: seq<nat>, rowMap: seq<nat>,
                    recovery: seq<Block>)
    requires 0 < pr.d && GraphOk(gr) && gr.width == pr.n + pr.M()
    requires forall t :: 0 <= t < |deferRows| ==> deferRows[t] < |gr.vecs|
    requires |pivots| == |gr.colMap| && gr.width <= |recovery|
    ensures Started(pr, seeds, gr, deferRows, pivots, rowMap, recovery, 0)
  {}

  lemma ValueIs(pr: Params, seeds: Seeds, gr: Graph, deferRows: seq<nat>, r: nat, value: Block, extra: nat)
    requires 0 < pr.d && GraphOk(gr) && gr.width == pr.n + pr.M()
    requires forall t :: 0 <= t < |deferRows| ==> deferRows[t] < |gr.vecs|
    requires r < pr.d || r >= pr.d + |deferRows| + extra ==> value == Zero()
    requires pr.d <= r < pr.d + |deferRows| ==>
      value == ReduceValue(gr, gr.vecs[deferRows[r - pr.d]], gr.inputs[deferRows[r - pr.d]], |gr.order|)
    requires r < pr.d + |deferRows| || r >= pr.d + |deferRows| + extra
    ensures value == StartValue(pr, seeds, gr, deferRows, r)
  {
    hide ReduceValue;
  }
}
