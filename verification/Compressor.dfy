/** Part 2 of the Wirehair solver: the Compression matrix and the elimination rows (src/fec/Wirehair.cpp). */
module Compressing {
  import opened ColumnIterator
  import opened CheckMatrix
  import opened PeelState
  import opened PeelOutcome
  import opened Blocks
  import opened Compression
  import opened Diagonal
  import opened Peeling

  /** list holds, once each, the rows that have column c. */
  ghost predicate RefersTo(vecs: seq<Bits>, list: seq<nat>, c: nat) {
    && Distinct(list)
    && (forall k :: 0 <= k < |list| ==> list[k] < |vecs|)
    && (forall r :: 0 <= r < |vecs| ==> c < |vecs[r]| && (r in list <==> vecs[r][c]))
  }

  /** The linked lists, marks and references peeling leaves behind spell out the graph gr; deferRows and
      deferCols are the rows and columns it deferred. */
  ghost predicate Wired(gr: Graph, deferRows: seq<nat>, deferCols: seq<nat>,
                        rows: seq<PeelRow>, cols: seq<PeelColumn>, refs: seq<seq<nat>>,
                        headRows: nat, deferHeadRows: nat, deferHeadColumns: nat) {
    && GraphOk(gr) && |gr.vecs| <= |rows| < LIST_TERM && |cols| == |refs| < LIST_TERM
    && Chain(rows, headRows, gr.order) && Chain(rows, deferHeadRows, deferRows)
    && ColChain(cols, deferHeadColumns, deferCols)
    && (forall c :: 0 <= c < |refs| ==> RefersTo(gr.vecs, refs[c], c))
    && (forall i :: 0 <= i < |gr.order| ==> rows[gr.order[i]].slot == gr.solved[i] < |cols|)
    && (forall i :: 0 <= i < |gr.order| ==> cols[gr.solved[i]].mark == Solved && cols[gr.solved[i]].slot == gr.order[i])
    && (forall i :: 0 <= i < |deferCols| ==> deferCols[i] < |cols| && cols[deferCols[i]].mark == Deferred)
    && (forall i :: 0 <= i < |deferRows| ==> deferRows[i] < |gr.vecs| && deferRows[i] !in gr.order)
    && Distinct(gr.order) && Distinct(deferRows) && Distinct(deferCols)
  }

  lemma WiredFromState(pr: Params, s: State, deferHeadColumns: nat, inputs: seq<Block>)
    requires Inv(s, {}) && GensOk(pr, s.rows, s.colsOf) && |s.cols| == |s.colsOf| == |inputs| == pr.n
    requires forall c :: 0 <= c < |s.cols| ==> s.cols[c].mark != Todo
    requires forall r: nat :: r < |s.colsOf| ==> r in s.order || r in s.deferRows
    requires |s.deferRows| == |s.deferCols|
    requires ColChain(s.cols, deferHeadColumns, s.deferCols) && Recalled(s.cols, s.order, s.solved)
    ensures OutcomeOk(pr, OutcomeOf(s, pr.n))
    ensures Wired(GraphOf(pr, OutcomeOf(s, pr.n), inputs), s.deferRows, s.deferCols,
                  s.rows, s.cols, s.refs, s.headRows, s.deferHeadRows, deferHeadColumns)
    ensures forall i :: 0 <= i < |s.order| ==> s.order[i] < |s.rows| && !s.rows[s.order[i]].isCopied
  {
    hide CountersBut, RowOk, Lowest, SolvesLast, Lists, DeferredOk, NextOf, PeelCols, MixCols, OutcomeOk, Chain, RowVec,
         Distinct, IsPrime;
    OutcomeFromState(pr, s);
    var oc := OutcomeOf(s, pr.n);
    GraphOfOk(pr, oc, inputs);
    var gr := GraphOf(pr, oc, inputs);
    forall c | 0 <= c < pr.n ensures RefersTo(gr.vecs, s.refs[c], c) {
      ListsRefer(pr, s, c, gr.vecs);
    }
    forall i | 0 <= i < |oc.deferCols| ensures s.cols[oc.deferCols[i]].mark == Deferred {
      assert s.deferCols[i] in s.deferCols;
    }
    forall i | 0 <= i < |s.deferRows| ensures s.deferRows[i] !in s.order {
      assert s.deferRows[i] in s.deferRows;
      forall k | 0 <= k < |s.order| ensures s.order[k] != s.deferRows[i] {
        assert s.order[k] !in s.deferRows;
      }
    }
  }

  lemma ListsRefer(pr: Params, s: State, c: nat, vecs: seq<Bits>)
    requires RefsOk(s) && GensOk(pr, s.rows, s.colsOf) && |s.cols| == |s.colsOf| == |vecs| == pr.n && c < pr.n
    requires forall r :: 0 <= r < pr.n ==> vecs[r] == RowVec(pr, s.rows[r].gen)
    ensures RefersTo(vecs, s.refs[c], c)
  {
    hide PeelCols, MixCols, Params.Valid, RowOk;
    assert Lists(s.refs[c], c, s.colsOf);
    var list := s.refs[c];
    forall r | 0 <= r < pr.n ensures c < |vecs[r]| && (r in list <==> vecs[r][c]) {
      assert s.colsOf[r] == ColSet(pr, s.rows[r].gen);
      if r in list {
        var k :| 0 <= k < |list| && list[k] == r;
        assert c in s.colsOf[list[k]];
      }
    }
  }

  // ---- Setting bits ----

  function MixMap(pr: Params, deferCols: seq<nat>): (r: seq<nat>)
    ensures |r| == |deferCols| + pr.M()
  {
    deferCols + seq(pr.M(), j requires 0 <= j < pr.M() => pr.n + j)
  }

  lemma MixMapAt(pr: Params, deferCols: seq<nat>)
    ensures forall g :: 0 <= g < |deferCols| ==> MixMap(pr, deferCols)[g] == deferCols[g]
  {}

  lemma ToggleMix(pr: Params, g: RowGen, deferCols: seq<nat>, row: Bits)
    requires pr.Valid() && RowOk(pr, g) && |row| == |deferCols| + pr.M()
    requires forall i :: 0 <= i < |deferCols| ==> deferCols[i] < pr.n
    ensures var m := MixCols(pr, g); var df := |deferCols|;
            var r1 := row[df + m[0] := !row[df + m[0]]];
            var r2 := r1[df + m[1] := !r1[df + m[1]]];
            r2[df + m[2] := !r2[df + m[2]]] == XorBits(row, MixPart(RowVec(pr, g), MixMap(pr, deferCols), df))
  {
    hide Params.Valid, RowOk, PeelCols, MixCols;
    var m := MixCols(pr, g);
    ColsDistinct(pr, g);
    assert m[0] != m[1] && m[0] != m[2] && m[1] != m[2];
    assert m == [m[0], m[1], m[2]];
    assert forall j: nat :: j in m <==> j == m[0] || j == m[1] || j == m[2];
  }

  lemma WiredSlot(gr: Graph, deferRows: seq<nat>, deferCols: seq<nat>,
                  rows: seq<PeelRow>, cols: seq<PeelColumn>, refs: seq<seq<nat>>,
                  headRows: nat, deferHeadRows: nat, deferHeadColumns: nat, c: nat, v: nat)
    requires Wired(gr, deferRows, deferCols, rows, cols, refs, headRows, deferHeadRows, deferHeadColumns)
    requires c < |cols| && cols[c].mark == Deferred
    ensures Wired(gr, deferRows, deferCols, rows, cols[c := cols[c].(slot := v)], refs, headRows, deferHeadRows,
                  deferHeadColumns)
  {
    hide RefersTo, Chain, NextOf, Distinct;
  }

  /** What a walk over the deferred columns meets at position g. */
  lemma DeferredAt(gr: Graph, deferRows: seq<nat>, deferCols: seq<nat>,
                   rows: seq<PeelRow>, cols: seq<PeelColumn>, refs: seq<seq<nat>>,
                   headRows: nat, deferHeadRows: nat, deferHeadColumns: nat, g: nat)
    requires Wired(gr, deferRows, deferCols, rows, cols, refs, headRows, deferHeadRows, deferHeadColumns)
    ensures deferHeadColumns == if deferCols == [] then LIST_TERM else deferCols[0]
    ensures |cols| == |refs| < LIST_TERM && forall g' :: 0 <= g' < |deferCols| ==> deferCols[g'] < |cols|
    ensures forall r, i :: 0 <= r < |gr.vecs| && 0 <= i < |gr.colMap| ==> gr.colMap[i] < |gr.vecs[r]|
    ensures g < |deferCols| ==>
      var c := deferCols[g];
      && c < |cols| && cols[c].mark == Deferred && RefersTo(gr.vecs, refs[c], c)
      && (forall k :: 0 <= k < |refs[c]| ==> refs[c][k] < |gr.vecs|)
      && cols[c].next == if g + 1 < |deferCols| then deferCols[g + 1] else LIST_TERM
    ensures g < |deferCols| ==> forall g' :: 0 <= g' < g ==> deferCols[g'] != deferCols[g]
  {
    hide Chain;
  }

  // Setting bit g for the rows that have deferred column g extends the deferred part by one.
  lemma DeferStep(vecs: seq<Bits>, map': seq<nat>, refRows: seq<nat>, g: nat, compress: seq<Bits>, compress': seq<Bits>)
    requires |compress| == |compress'| == |vecs| && g < |map'| && RefersTo(vecs, refRows, map'[g])
    requires forall r, i :: 0 <= r < |vecs| && 0 <= i < |map'| ==> map'[i] < |vecs[r]|
    requires forall r :: 0 <= r < |vecs| ==> |compress[r]| == |map'| && compress[r] == DeferPart(vecs[r], map', g)
    requires forall r :: 0 <= r < |vecs| ==> compress'[r] == if r in refRows then compress[r][g := true]
                                                             else compress[r]
    ensures forall r :: 0 <= r < |vecs| ==> compress'[r] == DeferPart(vecs[r], map', g + 1)
  {
    hide DeferPart;
    forall r | 0 <= r < |vecs| ensures compress'[r] == DeferPart(vecs[r], map', g + 1) {
      DeferPartNext(vecs[r], map', g);
    }
  }

  lemma DeferPartNext(v: Bits, map': seq<nat>, g: nat)
    requires g < |map'| && forall i :: 0 <= i < |map'| ==> map'[i] < |v|
    ensures DeferPart(v, map', g + 1) == if v[map'[g]] then DeferPart(v, map', g)[g := true] else DeferPart(v, map', g)
    ensures DeferPart(v, map', 0) == NoBits(|map'|)
  {}

  /** Every row keeps its id. */
  ghost predicate SameIds(rows: seq<PeelRow>, rows': seq<PeelRow>) {
    |rows'| == |rows| && forall r :: 0 <= r < |rows| ==> rows'[r].id == rows[r].id
  }

  lemma IdsKept(rows0: seq<PeelRow>, rows: seq<PeelRow>, r: nat)
    requires SameIds(rows0, rows) && r < |rows|
    ensures SameIds(rows0, rows[r := rows[r].(slot := LIST_TERM)])
    ensures SameIds(rows0, rows[r := rows[r].(isCopied := true)])
  {}

  lemma SameIdsSelf(rows: seq<PeelRow>)
    ensures SameIds(rows, rows)
  {}

  lemma IdsChain(rows0: seq<PeelRow>, rows: seq<PeelRow>, rows': seq<PeelRow>)
    requires SameIds(rows0, rows) && SameIds(rows, rows')
    ensures SameIds(rows0, rows')
  {}

  /** The peeled rows whose blocks are still to be copied have the graph's blocks as inputs. */
  ghost predicate Sourced(gr: Graph, rows: seq<PeelRow>, inputs: seq<Block>) {
    && GraphOk(gr) && |inputs| == |gr.inputs| <= |rows|
    && forall j :: 0 <= j < |gr.order| && !rows[gr.order[j]].isCopied ==> inputs[gr.order[j]] == gr.inputs[gr.order[j]]
  }

  lemma SourcedAt(gr: Graph, rows: seq<PeelRow>, inputs: seq<Block>, r: nat)
    requires Sourced(gr, rows, inputs)
    ensures |inputs| == |gr.inputs|
    ensures r in gr.order && r < |rows| && !rows[r].isCopied ==> r < |inputs| && inputs[r] == gr.inputs[r]
  {
    if r in gr.order {
      var j :| 0 <= j < |gr.order| && gr.order[j] == r;
    }
  }

  lemma SourcedKept(gr: Graph, rows: seq<PeelRow>, rows': seq<PeelRow>, inputs: seq<Block>)
    requires Sourced(gr, rows, inputs) && |rows'| == |rows|
    requires forall r :: 0 <= r < |rows| && rows[r].isCopied ==> rows'[r].isCopied
    ensures Sourced(gr, rows', inputs)
  {}

  /** What peeling left in the peeler is the graph gr. */
  ghost predicate Peeled(peel: Peeler, gr: Graph, deferRows: seq<nat>, deferCols: seq<nat>)
    reads peel
  {
    var pr := peel.pr;
    && pr.Valid() && pr.n == |gr.vecs| == |gr.inputs| && gr.width == pr.n + pr.M()
    && peel.deferCount == |deferCols| && gr.colMap == MixMap(pr, deferCols)
    && Wired(gr, deferRows, deferCols, peel.rows, peel.cols, peel.refs, peel.headRows, peel.deferHeadRows,
             peel.deferHeadColumns)
    && |peel.rows| >= pr.n && |peel.cols| == pr.n
    && forall r :: 0 <= r < pr.n ==> RowOk(pr, peel.rows[r].gen) && gr.vecs[r] == RowVec(pr, peel.rows[r].gen)
  }

  class Compressor {
    const pr: Params
    const peel: Peeler

    var compress: seq<Bits>     // _compress_matrix
    var ge: seq<Bits>           // _ge_matrix, the dense and deferred rows
    var spare: seq<Bits>        // _ge_matrix, the rows after them: extra rows and one for workspace
    var colMap: seq<nat>        // _ge_col_map
    var rowMap: seq<nat>        // _ge_row_map
    var inputs: seq<Block>      // _input_blocks
    var recovery: seq<Block>    // _recovery_blocks

    /** The recovery blocks' memory is not cleared. */
    constructor (peel: Peeler, inputs: seq<Block>, workspace: seq<Block>)
      requires peel.pr.Valid()
      ensures this.peel == peel && pr == peel.pr && this.inputs == inputs && recovery == workspace
    {
      this.peel := peel;
      this.pr := peel.pr;
      this.inputs := inputs;
      recovery := workspace;
      compress, ge, spare, colMap, rowMap := [], [], [], [], [];
    }

    /** AllocateMatrix: both matrices cleared, but for the rows after the deferred ones; maps sized for df deferred
        columns. */
    method AllocateMatrix(df: nat, extra: nat)
      modifies this`compress, this`ge, this`spare, this`colMap, this`rowMap
      ensures |compress| == pr.n && forall r :: 0 <= r < pr.n ==> compress[r] == NoBits(df + pr.M())
      ensures |ge| == df + pr.d && forall r :: 0 <= r < |ge| ==> ge[r] == NoBits(df + pr.M())
      ensures |spare| == extra + 1 && |colMap| == df + pr.M() && |rowMap| == df + pr.M() + extra
    {
      compress := seq(pr.n, _ => NoBits(df + pr.M()));
      ge := seq(df + pr.d, _ => NoBits(df + pr.M()));
      spare := seq(extra + 1, _ => []);
      colMap := seq(df + pr.M(), _ => 0);
      rowMap := seq(df + pr.M() + extra, _ => 0);
    }

    ghost predicate Joined(gr: Graph, deferRows: seq<nat>, deferCols: seq<nat>)
      reads this, peel
    {
      peel.pr == pr && Peeled(peel, gr, deferRows, deferCols)
    }

    /** Every peeled row's block is where the copy flag says: in the column's recovery block, or still among the
        inputs. */
    ghost predicate Loaded(gr: Graph)
      reads this, peel
    {
      && Sourced(gr, peel.rows, inputs) && |recovery| >= gr.width
      && forall j :: 0 <= j < |gr.order| && peel.rows[gr.order[j]].isCopied ==>
           recovery[gr.solved[j]] == gr.inputs[gr.order[j]]
    }

    /** Sets the deferred bits of every row and maps elimination columns to matrix columns and back. */
    method SetDeferredColumns(ghost gr: Graph, ghost deferRows: seq<nat>, ghost deferCols: seq<nat>)
      requires Joined(gr, deferRows, deferCols)
      requires |compress| == pr.n && |colMap| == |gr.colMap|
      requires forall r :: 0 <= r < pr.n ==> compress[r] == NoBits(|gr.colMap|)
      modifies this`compress, this`colMap, peel`cols
      ensures Joined(gr, deferRows, deferCols) && colMap == gr.colMap
      ensures |compress| == pr.n
      ensures forall r :: 0 <= r < pr.n ==> compress[r] == DeferPart(gr.vecs[r], gr.colMap, |deferCols|)
      ensures forall g :: 0 <= g < |deferCols| ==> peel.cols[deferCols[g]].slot == g
      ensures |peel.cols| == old(|peel.cols|)
      ensures forall c :: 0 <= c < |peel.cols| && c !in deferCols ==> peel.cols[c] == old(peel.cols)[c]
    {
      hide Wired, RefersTo, DeferPart, Params.Valid, RowOk, RowVec, MixMap;
      ghost var df := |deferCols|;
      MixMapAt(pr, deferCols);
      var g, column := 0, peel.deferHeadColumns;
      DeferredAt(gr, deferRows, deferCols, peel.rows, peel.cols, peel.refs, peel.headRows, peel.deferHeadRows,
                 peel.deferHeadColumns, 0);
      forall r | 0 <= r < pr.n ensures compress[r] == DeferPart(gr.vecs[r], gr.colMap, 0) {
        DeferPartNext(gr.vecs[r], gr.colMap, 0);
      }
      while column != LIST_TERM
        invariant g <= df && column == (if g < df then deferCols[g] else LIST_TERM)
        invariant Joined(gr, deferRows, deferCols) && |compress| == pr.n && |colMap| == |gr.colMap|
        invariant forall r :: 0 <= r < pr.n ==> compress[r] == DeferPart(gr.vecs[r], gr.colMap, g)
        invariant forall g' :: 0 <= g' < df ==> deferCols[g'] < |peel.cols|
        invariant |peel.cols| == old(|peel.cols|)
        invariant forall c :: 0 <= c < |peel.cols| && c !in deferCols ==> peel.cols[c] == old(peel.cols)[c]
        invariant forall g' :: 0 <= g' < g ==> colMap[g'] == gr.colMap[g'] && peel.cols[deferCols[g']].slot == g'
        decreases df - g
      {
        DeferredAt(gr, deferRows, deferCols, peel.rows, peel.cols, peel.refs, peel.headRows, peel.deferHeadRows,
                   peel.deferHeadColumns, g);
        ghost var before := compress;
        SetColumnBits(peel.refs[column], g);
        DeferStep(gr.vecs, gr.colMap, peel.refs[column], g, before, compress);
        colMap := colMap[g := column];
        WiredSlot(gr, deferRows, deferCols, peel.rows, peel.cols, peel.refs, peel.headRows, peel.deferHeadRows,
                  peel.deferHeadColumns, column, g);
        peel.cols := peel.cols[column := peel.cols[column].(slot := g)];
        column := peel.cols[column].next;
        g := g + 1;
      }
      MapMixColumns(gr.colMap, deferCols);
    }

    /** Maps the elimination columns after the deferred ones to the mix columns. */
    method MapMixColumns(ghost target: seq<nat>, ghost deferCols: seq<nat>)
      requires target == MixMap(pr, deferCols) && |colMap| == |target| && peel.deferCount == |deferCols|
      requires forall g :: 0 <= g < |deferCols| ==> colMap[g] == target[g]
      modifies this`colMap
      ensures colMap == target
    {
      for j := 0 to pr.M()
        invariant |colMap| == |target| && forall g :: 0 <= g < |deferCols| + j ==> colMap[g] == target[g]
      {
        colMap := colMap[peel.deferCount + j := pr.n + j];
      }
    }

    /** Sets bit g in the Compression matrix rows listed. */
    method SetColumnBits(refRows: seq<nat>, g: nat)
      requires forall k :: 0 <= k < |refRows| ==> refRows[k] < |compress|
      requires forall r :: 0 <= r < |compress| ==> g < |compress[r]|
      modifies this`compress
      ensures |compress| == |old(compress)|
      ensures forall r :: 0 <= r < |compress| ==> compress[r] == if r in refRows then old(compress)[r][g := true]
                                                                 else old(compress)[r]
    {
      for k := 0 to |refRows|
        invariant |compress| == |old(compress)|
        invariant forall r :: 0 <= r < |compress| ==>
                    compress[r] == if r in refRows[..k] then old(compress)[r][g := true] else old(compress)[r]
      {
        assert refRows[..k + 1] == refRows[..k] + [refRows[k]];
        compress := compress[refRows[k] := compress[refRows[k]][g := true]];
      }
      assert refRows[..|refRows|] == refRows;
    }

    /** Flips the three mix bits of row r in the Compression matrix. */
    method FlipMixColumns(r: nat, ghost deferCols: seq<nat>)
      requires pr.Valid() && r < |peel.rows| && RowOk(pr, peel.rows[r].gen)
      requires peel.deferCount == |deferCols| && forall i :: 0 <= i < |deferCols| ==> deferCols[i] < pr.n
      requires r < |compress| && |compress[r]| == |deferCols| + pr.M()
      modifies this`compress
      ensures compress == old(compress)[r :=
                XorBits(old(compress)[r], MixPart(RowVec(pr, peel.rows[r].gen), MixMap(pr, deferCols), |deferCols|))]
    {
      hide Params.Valid, PeelCols, MixCols, NextColumn, MixPart, XorBits, RowVec, MixMap;
      var gen := peel.rows[r].gen;
      ghost var m := MixCols(pr, gen);
      var x := gen.mixX0;
      var row := compress[r];
      ToggleMix(pr, gen, deferCols, row);
      MixSteps(pr, gen);
      row := row[peel.deferCount + x := !row[peel.deferCount + x]];
      x := NextColumn(x, gen.mixA, pr.M(), pr.q);
      row := row[peel.deferCount + x := !row[peel.deferCount + x]];
      x := NextColumn(x, gen.mixA, pr.M(), pr.q);
      row := row[peel.deferCount + x := !row[peel.deferCount + x]];
      compress := compress[r := row];
    }

    /** Gives the deferred rows their mix columns and tags them as not peeled. */
    method SetMixingColumnsForDeferredRows(ghost gr: Graph, ghost deferRows: seq<nat>, ghost deferCols: seq<nat>)
      requires Joined(gr, deferRows, deferCols) && |compress| == pr.n
      requires forall r :: 0 <= r < pr.n ==> compress[r] == DeferPart(gr.vecs[r], gr.colMap, |deferCols|)
      modifies this`compress, peel`rows
      ensures Joined(gr, deferRows, deferCols) && |compress| == pr.n
      ensures forall k :: 0 <= k < |deferRows| ==> peel.rows[deferRows[k]].slot == LIST_TERM
      ensures forall j :: 0 <= j < |gr.order| ==>
                peel.rows[gr.order[j]].isCopied == old(peel.rows)[gr.order[j]].isCopied
      ensures forall k :: 0 <= k < |deferRows| ==> compress[deferRows[k]] == Pull(gr.vecs[deferRows[k]], gr.colMap)
      ensures forall j :: 0 <= j < |gr.order| ==>
                compress[gr.order[j]] == DeferPart(gr.vecs[gr.order[j]], gr.colMap, |deferCols|)
      ensures SameIds(old(peel.rows), peel.rows)
    {
      hide Wired, DeferPart, MixPart, Pull, XorBits, Params.Valid, RowOk, RowVec, MixMap, Chain, SameIds;
      SameIdsSelf(peel.rows);
      var k, row := 0, peel.deferHeadRows;
      DeferredRowAt(gr, deferRows, deferCols, peel.rows, peel.cols, peel.refs, peel.headRows, peel.deferHeadRows,
                    peel.deferHeadColumns, 0);
      while row != LIST_TERM
        invariant k <= |deferRows| && row == (if k < |deferRows| then deferRows[k] else LIST_TERM)
        invariant Joined(gr, deferRows, deferCols) && |compress| == pr.n
        invariant forall i :: 0 <= i < k ==>
                    peel.rows[deferRows[i]].slot == LIST_TERM
                    && compress[deferRows[i]] == Pull(gr.vecs[deferRows[i]], gr.colMap)
        invariant forall i :: k <= i < |deferRows| ==>
                    compress[deferRows[i]] == DeferPart(gr.vecs[deferRows[i]], gr.colMap, |deferCols|)
        invariant forall j :: 0 <= j < |gr.order| ==>
                    compress[gr.order[j]] == DeferPart(gr.vecs[gr.order[j]], gr.colMap, |deferCols|)
        invariant forall j :: 0 <= j < |gr.order| ==>
                    peel.rows[gr.order[j]].isCopied == old(peel.rows)[gr.order[j]].isCopied
        invariant SameIds(old(peel.rows), peel.rows)
        decreases |deferRows| - k
      {
        DeferredRowAt(gr, deferRows, deferCols, peel.rows, peel.cols, peel.refs, peel.headRows, peel.deferHeadRows,
                      peel.deferHeadColumns, k);
        PartsJoin(gr.vecs[row], gr.colMap, |deferCols|);
        WiredRow(gr, deferRows, deferCols, peel.rows, peel.cols, peel.refs, peel.headRows, peel.deferHeadRows,
                 peel.deferHeadColumns, row);
        IdsKept(old(peel.rows), peel.rows, row);
        peel.rows := peel.rows[row := peel.rows[row].(slot := LIST_TERM)];
        FlipMixColumns(row, deferCols);
        row := peel.rows[row].next;
        k := k + 1;
      }
    }

    /** Adds row p of the Compression matrix, and the block of column c, to row r and, if r is peeled, to its block. */
    method AddToRow(r: nat, p: nat, c: nat)
      requires r < |compress| && p < |compress| && r != p && |compress[r]| == |compress[p]|
      requires r < |peel.rows| && r < |inputs| && c < |recovery|
      requires peel.rows[r].slot != LIST_TERM ==> peel.rows[r].slot < |recovery|
      modifies this`compress, this`recovery, peel`rows
      ensures compress == old(compress)[r := XorBits(old(compress)[r], old(compress)[p])]
      ensures var row := old(peel.rows)[r]; var rec := old(recovery);
              if row.slot == LIST_TERM then peel.rows == old(peel.rows) && recovery == rec
              else
                && peel.rows == (if row.isCopied then old(peel.rows) else old(peel.rows)[r := row.(isCopied := true)])
                && recovery == rec[row.slot := if row.isCopied then Add(rec[row.slot], rec[c])
                                               else Add(rec[c], inputs[r])]
    {
      compress := compress[r := XorBits(compress[r], compress[p])];
      var column := peel.rows[r].slot;
      if column != LIST_TERM {
        if peel.rows[r].isCopied {
          recovery := recovery[column := Add(recovery[column], recovery[c])];
        } else {
          recovery := recovery[column := Add(recovery[c], inputs[r])];
          peel.rows := peel.rows[r := peel.rows[r].(isCopied := true)];
        }
      }
    }

    /** AddToRow keeps what peeling left, and copies a block only from the graph's inputs. */
    method AddToPeeledRow(r: nat, p: nat, c: nat, ghost gr: Graph, ghost deferRows: seq<nat>, ghost deferCols: seq<nat>)
      requires r < |compress| && p < |compress| && r != p && |compress[r]| == |compress[p]|
      requires r < |peel.rows| && r < |inputs| && c < |recovery| && r < |gr.inputs|
      requires peel.rows[r].slot != LIST_TERM ==> peel.rows[r].slot < |recovery| && r in gr.order
      requires Joined(gr, deferRows, deferCols) && Sourced(gr, peel.rows, inputs)
      modifies this`compress, this`recovery, peel`rows
      ensures Joined(gr, deferRows, deferCols) && Sourced(gr, peel.rows, inputs) && SameIds(old(peel.rows), peel.rows)
      ensures compress == old(compress)[r := XorBits(old(compress)[r], old(compress)[p])]
      ensures var row := old(peel.rows)[r]; var rec := old(recovery);
              if row.slot == LIST_TERM then peel.rows == old(peel.rows) && recovery == rec
              else
                && peel.rows == (if row.isCopied then old(peel.rows) else old(peel.rows)[r := row.(isCopied := true)])
                && recovery == rec[row.slot := if row.isCopied then Add(rec[row.slot], rec[c])
                                               else Add(rec[c], gr.inputs[r])]
    {
      hide Wired, XorBits, Params.Valid, RowOk, RowVec, MixMap, Add, SameIds, Sourced;
      ghost var rows1 := peel.rows;
      SameIdsSelf(rows1);
      WiredRow(gr, deferRows, deferCols, peel.rows, peel.cols, peel.refs, peel.headRows, peel.deferHeadRows,
               peel.deferHeadColumns, r);
      IdsKept(rows1, rows1, r);
      SourcedAt(gr, rows1, inputs, r);
      AddToRow(r, p, c);
      SourcedKept(gr, rows1, peel.rows, inputs);
    }

    /** Adds the completed row p of column c, and its block, to every other row that refers to c. */
    method AddToReferencingRows(p: nat, c: nat, ghost gr: Graph, ghost deferRows: seq<nat>, ghost deferCols: seq<nat>,
                                ghost i: nat)
      requires Joined(gr, deferRows, deferCols) && i < |gr.order| && p == gr.order[i] && c == gr.solved[i] < |peel.refs|
      requires |compress| == |inputs| == pr.n && Sourced(gr, peel.rows, inputs) && |recovery| >= gr.width
      requires forall r :: 0 <= r < pr.n ==> |compress[r]| == |gr.colMap|
      requires Untagged(gr, deferRows, peel.rows)
      modifies this`compress, this`recovery, peel`rows
      ensures Joined(gr, deferRows, deferCols) && Untagged(gr, deferRows, peel.rows)
      ensures AddedTo(gr, i, old(compress), compress, old(peel.rows), peel.rows, old(recovery), recovery, peel.refs[c])
      ensures Sourced(gr, peel.rows, inputs)
      ensures SameIds(old(peel.rows), peel.rows)
    {
      hide Wired, XorBits, Params.Valid, RowOk, RowVec, MixMap, Add, ValueAdded, AddedTo, Untagged, SameIds, Sourced;
      SameIdsSelf(peel.rows);
      var refRows := peel.refs[c];
      ReferenceAt(gr, deferRows, deferCols, peel.rows, peel.cols, peel.refs, peel.headRows, peel.deferHeadRows,
                  peel.deferHeadColumns, i);
      AddedNone(gr, i, compress, peel.rows, recovery);
      for k := 0 to |refRows|
        invariant Joined(gr, deferRows, deferCols) && Untagged(gr, deferRows, peel.rows)
        invariant Sourced(gr, peel.rows, inputs)
        invariant AddedTo(gr, i, old(compress), compress, old(peel.rows), peel.rows, old(recovery), recovery,
                          refRows[..k])
        invariant SameIds(old(peel.rows), peel.rows)
      {
        var r := refRows[k];
        ReferenceAt(gr, deferRows, deferCols, peel.rows, peel.cols, peel.refs, peel.headRows, peel.deferHeadRows,
                    peel.deferHeadColumns, i);
        assert refRows[..k + 1] == refRows[..k] + [r];
        AddedBounds(gr, i, old(compress), compress, old(peel.rows), peel.rows, old(recovery), recovery, refRows[..k],
                    deferRows, r);
        if r != p {
          ghost var compress1, rows1, rec1 := compress, peel.rows, recovery;
          AddToPeeledRow(r, p, c, gr, deferRows, deferCols);
          IdsChain(old(peel.rows), rows1, peel.rows);
          AddedStep(gr, i, old(compress), compress1, compress, old(peel.rows), rows1, peel.rows, old(recovery), rec1,
                    recovery, refRows[..k], deferRows, r);
        } else {
          AddedSkip(gr, i, old(compress), compress, old(peel.rows), peel.rows, old(recovery), recovery, refRows[..k]);
        }
      }
      assert refRows[..|refRows|] == refRows;
    }

    /** Step i: completes row p, the i-th peeled, and adds it and its block to the other rows that have its column. */
    method CompleteRow(p: nat, ghost gr: Graph, ghost deferRows: seq<nat>, ghost deferCols: seq<nat>, ghost i: nat)
      requires Joined(gr, deferRows, deferCols) && Untagged(gr, deferRows, peel.rows)
      requires Triangular(gr) && Sourced(gr, peel.rows, inputs)
      requires i < |gr.order| && p == gr.order[i]
      requires Progress(gr, |deferCols|, deferRows, compress, CopiedOf(peel.rows, pr.n), recovery, i)
      modifies this`compress, this`recovery, peel`rows
      ensures Joined(gr, deferRows, deferCols) && Untagged(gr, deferRows, peel.rows) && Sourced(gr, peel.rows, inputs)
      ensures Progress(gr, |deferCols|, deferRows, compress, CopiedOf(peel.rows, pr.n), recovery, i + 1)
      ensures |recovery| == old(|recovery|)
      ensures SameIds(old(peel.rows), peel.rows) && p < |peel.rows|
      ensures peel.rows[p].next == if i + 1 < |gr.order| then gr.order[i + 1] else LIST_TERM
    {
      hide Wired, XorBits, Params.Valid, RowOk, RowVec, MixMap, Add, AddedTo, Untagged, Progress, MixPart, Triangular,
           Distinct, CopiedOf, SameIds, Sourced;
      ReferenceAt(gr, deferRows, deferCols, peel.rows, peel.cols, peel.refs, peel.headRows, peel.deferHeadRows,
                  peel.deferHeadColumns, i);
      ghost var df, compress0, rows0, rec0 := |deferCols|, compress, peel.rows, recovery;
      var c := peel.rows[p].slot;
      ProgressBounds(gr, deferRows, deferCols, peel.rows, peel.cols, peel.refs, peel.headRows, peel.deferHeadRows,
                     peel.deferHeadColumns, compress, recovery, df, i);
      FlipMixColumns(p, deferCols);
      SourcedAt(gr, peel.rows, inputs, p);
      if !peel.rows[p].isCopied {
        recovery := recovery[c := inputs[p]];
      }
      ghost var compress1, rec1 := compress, recovery;
      AddToReferencingRows(p, c, gr, deferRows, deferCols, i);
      DiagonalStep(gr, deferRows, deferCols, rows0, peel.cols, peel.refs, peel.headRows, peel.deferHeadRows,
                   peel.deferHeadColumns, df, i, compress0, compress1, compress, peel.rows, rec0, rec1, recovery);
    }

    /** Diagonalises the peeled rows: afterwards each solved column is its compressed row plus its temporary block. */
    method PeelDiagonal(ghost gr: Graph, ghost deferRows: seq<nat>, ghost deferCols: seq<nat>)
      requires Joined(gr, deferRows, deferCols) && Untagged(gr, deferRows, peel.rows) && Triangular(gr)
      requires |compress| == pr.n && Loaded(gr)
      requires forall k :: 0 <= k < |deferRows| ==> compress[deferRows[k]] == Pull(gr.vecs[deferRows[k]], gr.colMap)
      requires forall j :: 0 <= j < |gr.order| ==>
                 compress[gr.order[j]] == DeferPart(gr.vecs[gr.order[j]], gr.colMap, |deferCols|)
      modifies this`compress, this`recovery, peel`rows
      ensures Joined(gr, deferRows, deferCols) && |compress| == pr.n && |recovery| == old(|recovery|)
      ensures forall k :: 0 <= k < |deferRows| ==>
                compress[deferRows[k]] == Reduce(gr, gr.vecs[deferRows[k]], |gr.order|)
      ensures forall j :: 0 <= j < |gr.order| ==> compress[gr.order[j]] == CompressRow(gr, j)
      ensures forall j :: 0 <= j < |gr.order| ==> recovery[gr.solved[j]] == Temp(gr, j)
      ensures SameIds(old(peel.rows), peel.rows)
    {
      hide Wired, XorBits, Params.Valid, RowOk, RowVec, MixMap, Add, AddedTo, Untagged, Progress, MixPart, Triangular,
           Distinct, CopiedOf, SameIds, Sourced;
      SameIdsSelf(peel.rows);
      ghost var df := |deferCols|;
      SourcedAt(gr, peel.rows, inputs, 0);
      DiagonalStart(gr, deferRows, deferCols, compress, peel.rows, peel.cols, peel.refs, peel.headRows,
                    peel.deferHeadRows, peel.deferHeadColumns, recovery, df);
      ReferenceAt(gr, deferRows, deferCols, peel.rows, peel.cols, peel.refs, peel.headRows, peel.deferHeadRows,
                  peel.deferHeadColumns, 0);
      ghost var i := 0;
      var p := peel.headRows;
      while p != LIST_TERM
        invariant i <= |gr.order| && p == (if i < |gr.order| then gr.order[i] else LIST_TERM)
        invariant Joined(gr, deferRows, deferCols) && Untagged(gr, deferRows, peel.rows)
        invariant |recovery| == old(|recovery|)
        invariant Sourced(gr, peel.rows, inputs)
        invariant Progress(gr, df, deferRows, compress, CopiedOf(peel.rows, pr.n), recovery, i)
        invariant SameIds(old(peel.rows), peel.rows)
        decreases |gr.order| - i
      {
        ghost var rows0 := peel.rows;
        CompleteRow(p, gr, deferRows, deferCols, i);
        IdsChain(old(peel.rows), rows0, peel.rows);
        p := peel.rows[p].next;
        i := i + 1;
      }
      DiagonalEnd(gr, deferRows, compress, peel.rows, recovery, df);
    }
  }

  ghost function CopiedOf(rows: seq<PeelRow>, n: nat): (r: seq<bool>)
    requires n <= |rows|
    ensures |r| == n
  {
    seq(n, r requires 0 <= r < n => rows[r].isCopied)
  }

  lemma DiagonalStart(gr: Graph, deferRows: seq<nat>, deferCols: seq<nat>, compress: seq<Bits>,
                      rows: seq<PeelRow>, cols: seq<PeelColumn>, refs: seq<seq<nat>>,
                      headRows: nat, deferHeadRows: nat, deferHeadColumns: nat, recovery: seq<Block>, df: nat)
    requires Wired(gr, deferRows, deferCols, rows, cols, refs, headRows, deferHeadRows, deferHeadColumns)
    requires |compress| == |gr.vecs| && |recovery| >= gr.width && df == |deferCols|
    requires forall j :: 0 <= j < |gr.order| && rows[gr.order[j]].isCopied ==>
               recovery[gr.solved[j]] == gr.inputs[gr.order[j]]
    requires forall k :: 0 <= k < |deferRows| ==> compress[deferRows[k]] == Pull(gr.vecs[deferRows[k]], gr.colMap)
    requires forall j :: 0 <= j < |gr.order| ==> compress[gr.order[j]] == DeferPart(gr.vecs[gr.order[j]], gr.colMap, df)
    ensures Progress(gr, df, deferRows, compress, CopiedOf(rows, |gr.vecs|), recovery, 0)
  {
    hide Chain, ColChain, RefersTo, Distinct, DeferPart, MixPart, Pull, XorBits;
    forall j | 0 <= j < |gr.order| ensures compress[gr.order[j]] == PeeledRowAfter(gr, df, j, 0) {
      PartsJoin(gr.vecs[gr.order[j]], gr.colMap, df);
    }
  }

  lemma ProgressBounds(gr: Graph, deferRows: seq<nat>, deferCols: seq<nat>,
                       rows: seq<PeelRow>, cols: seq<PeelColumn>, refs: seq<seq<nat>>,
                       headRows: nat, deferHeadRows: nat, deferHeadColumns: nat,
                       compress: seq<Bits>, recovery: seq<Block>, df: nat, i: nat)
    requires Wired(gr, deferRows, deferCols, rows, cols, refs, headRows, deferHeadRows, deferHeadColumns)
    requires i < |gr.order| && Progress(gr, df, deferRows, compress, CopiedOf(rows, |gr.vecs|), recovery, i)
    requires Untagged(gr, deferRows, rows)
    ensures |compress| == |gr.vecs| && |recovery| >= gr.width && gr.solved[i] < gr.width && gr.solved[i] < |refs|
    ensures forall r :: 0 <= r < |compress| ==> |compress[r]| == |gr.colMap|
    ensures forall k :: 0 <= k < |deferCols| ==> deferCols[k] < |cols|
  {
    hide Chain, ColChain, RefersTo, Distinct, Reduce, CompressRow, ReduceValue, Temp;
    forall r | 0 <= r < |compress| ensures |compress[r]| == |gr.colMap| {
      if r in gr.order {
        var j :| 0 <= j < |gr.order| && gr.order[j] == r;
      } else {
        var k :| 0 <= k < |deferRows| && deferRows[k] == r;
      }
    }
  }

  lemma DiagonalStep(gr: Graph, deferRows: seq<nat>, deferCols: seq<nat>,
                     rows: seq<PeelRow>, cols: seq<PeelColumn>, refs: seq<seq<nat>>,
                     headRows: nat, deferHeadRows: nat, deferHeadColumns: nat,
                     df: nat, i: nat, compress0: seq<Bits>, compress1: seq<Bits>, compress: seq<Bits>,
                     rows': seq<PeelRow>, rec0: seq<Block>, rec1: seq<Block>, rec: seq<Block>)
    requires Wired(gr, deferRows, deferCols, rows, cols, refs, headRows, deferHeadRows, deferHeadColumns)
    requires Triangular(gr)
    requires i < |gr.order| && Progress(gr, df, deferRows, compress0, CopiedOf(rows, |gr.vecs|), rec0, i)
    requires |gr.inputs| == |gr.vecs| == |compress0| && |rec0| >= gr.width
    requires forall r :: 0 <= r < |compress0| ==> |compress0[r]| == |gr.colMap|
    requires var p := gr.order[i];
               compress1 == compress0[p := XorBits(compress0[p], MixPart(gr.vecs[p], gr.colMap, df))]
    requires rec1 == if rows[gr.order[i]].isCopied then rec0 else rec0[gr.solved[i] := gr.inputs[gr.order[i]]]
    requires gr.solved[i] < |refs| && AddedTo(gr, i, compress1, compress, rows, rows', rec1, rec, refs[gr.solved[i]])
    ensures Progress(gr, df, deferRows, compress, CopiedOf(rows', |gr.vecs|), rec, i + 1)
    ensures |rec| == |rec0| && rows'[gr.order[i]].next == if i + 1 < |gr.order| then gr.order[i + 1] else LIST_TERM
  {
    hide Chain, ColChain, Triangular, Reduce, CompressRow, ReduceValue, Temp, XorBits, MixPart, Add, Wired, Progress;
    ReferenceAt(gr, deferRows, deferCols, rows, cols, refs, headRows, deferHeadRows, deferHeadColumns, i);
    DeferredRowAt(gr, deferRows, deferCols, rows, cols, refs, headRows, deferHeadRows, deferHeadColumns, 0);
    assert StepDone(gr, df, i, compress0, compress, CopiedOf(rows, |gr.vecs|), CopiedOf(rows', |gr.vecs|), rec0,
                    rec) by {
      forall j | 0 <= j < |gr.order| && j != i
        ensures if gr.vecs[gr.order[j]][gr.solved[i]] then
                  CopiedOf(rows', |gr.vecs|)[gr.order[j]] && rec[gr.solved[j]] ==
                  Add(Slot(gr, CopiedOf(rows, |gr.vecs|), rec0, j), Slot(gr, CopiedOf(rows, |gr.vecs|), rec0, i))
                else
                  CopiedOf(rows', |gr.vecs|)[gr.order[j]] == CopiedOf(rows, |gr.vecs|)[gr.order[j]] &&
                  rec[gr.solved[j]] == rec0[gr.solved[j]]
      {
        assert ValueAdded(gr, rows, rows', rec1, rec, j, gr.solved[i], gr.order[j] in refs[gr.solved[i]]);
      }
    }
    NotPeeled(gr, deferRows, deferCols, rows, cols, refs, headRows, deferHeadRows, deferHeadColumns);
    StepKeeps(gr, df, deferRows, i, compress0, compress, CopiedOf(rows, |gr.vecs|), CopiedOf(rows', |gr.vecs|), rec0,
              rec);
  }

  lemma NotPeeled(gr: Graph, deferRows: seq<nat>, deferCols: seq<nat>,
                  rows: seq<PeelRow>, cols: seq<PeelColumn>, refs: seq<seq<nat>>,
                  headRows: nat, deferHeadRows: nat, deferHeadColumns: nat)
    requires Wired(gr, deferRows, deferCols, rows, cols, refs, headRows, deferHeadRows, deferHeadColumns)
    ensures Distinct(gr.order) && forall k :: 0 <= k < |deferRows| ==> deferRows[k] !in gr.order
  {
    hide Chain, ColChain, RefersTo;
  }

  lemma DiagonalEnd(gr: Graph, deferRows: seq<nat>, compress: seq<Bits>, rows: seq<PeelRow>, recovery: seq<Block>,
                    df: nat)
    requires GraphOk(gr) && |gr.vecs| <= |rows|
    requires Progress(gr, df, deferRows, compress, CopiedOf(rows, |gr.vecs|), recovery, |gr.order|)
    ensures forall k :: 0 <= k < |deferRows| ==>
              deferRows[k] < |compress| && compress[deferRows[k]] == Reduce(gr, gr.vecs[deferRows[k]], |gr.order|)
    ensures forall j :: 0 <= j < |gr.order| ==> gr.order[j] < |compress| && compress[gr.order[j]] == CompressRow(gr, j)
    ensures forall j :: 0 <= j < |gr.order| ==> gr.solved[j] < |recovery| && recovery[gr.solved[j]] == Temp(gr, j)
    ensures |compress| == |gr.vecs|
  {
    hide Reduce, ReduceValue;
  }

  /** Rows that were not peeled carry LIST_TERM in place of a column. */
  ghost predicate Untagged(gr: Graph, deferRows: seq<nat>, rows: seq<PeelRow>) {
    && (forall k :: 0 <= k < |deferRows| ==> deferRows[k] < |rows| && rows[deferRows[k]].slot == LIST_TERM)
    && (forall r: nat :: r < |gr.vecs| ==> r in gr.order || r in deferRows)
  }

  /** Row order[i] and its block have been added to the rows seen, and nothing else has changed. */
  ghost predicate AddedTo(gr: Graph, i: nat, compress: seq<Bits>, compress': seq<Bits>,
                          rows: seq<PeelRow>, rows': seq<PeelRow>, recovery: seq<Block>, recovery': seq<Block>,
                          seen: seq<nat>) {
    && GraphOk(gr) && i < |gr.order|
    && |compress'| == |compress| == |gr.vecs| <= |rows| == |rows'| && |recovery'| == |recovery| >= gr.width
    && (forall r :: 0 <= r < |gr.vecs| ==> |compress[r]| == |gr.colMap|)
    && var p, c := gr.order[i], gr.solved[i];
    && (forall r :: 0 <= r < |gr.vecs| ==>
          compress'[r] == if r != p && r in seen then XorBits(compress[r], compress[p]) else compress[r])
    && recovery'[c] == recovery[c]
    && (forall j :: 0 <= j < |gr.order| && j != i ==>
          ValueAdded(gr, rows, rows', recovery, recovery', j, c, gr.order[j] in seen))
    && (forall r :: 0 <= r < |rows| ==> rows'[r].next == rows[r].next && rows'[r].slot == rows[r].slot)
    && rows'[p] == rows[p]
  }

  lemma AddedNone(gr: Graph, i: nat, compress: seq<Bits>, rows: seq<PeelRow>, recovery: seq<Block>)
    requires GraphOk(gr) && i < |gr.order| && |compress| == |gr.vecs| <= |rows| && |recovery| >= gr.width
    requires forall r :: 0 <= r < |gr.vecs| ==> |compress[r]| == |gr.colMap|
    ensures AddedTo(gr, i, compress, compress, rows, rows, recovery, recovery, [])
  {}

  // The row that was just completed is in its own column's list and is passed over.
  lemma AddedSkip(gr: Graph, i: nat, compress0: seq<Bits>, compress: seq<Bits>, rows0: seq<PeelRow>, rows: seq<PeelRow>,
                  rec0: seq<Block>, rec: seq<Block>, seen: seq<nat>)
    requires AddedTo(gr, i, compress0, compress, rows0, rows, rec0, rec, seen) && Distinct(gr.order)
    ensures AddedTo(gr, i, compress0, compress, rows0, rows, rec0, rec, seen + [gr.order[i]])
  {
    hide ValueAdded, XorBits;
    forall j | 0 <= j < |gr.order| && j != i
      ensures ValueAdded(gr, rows0, rows, rec0, rec, j, gr.solved[i], gr.order[j] in seen + [gr.order[i]])
    {
      assert gr.order[j] != gr.order[i];
    }
  }

  lemma AddedBounds(gr: Graph, i: nat, compress0: seq<Bits>, compress: seq<Bits>, rows0: seq<PeelRow>,
                    rows: seq<PeelRow>, rec0: seq<Block>, rec: seq<Block>, seen: seq<nat>, deferRows: seq<nat>, r: nat)
    requires AddedTo(gr, i, compress0, compress, rows0, rows, rec0, rec, seen) && Untagged(gr, deferRows, rows)
    requires forall j :: 0 <= j < |gr.order| ==> rows[gr.order[j]].slot == gr.solved[j]
    requires r < |gr.vecs|
    ensures r < |compress| && gr.order[i] < |compress| && |compress[r]| == |compress[gr.order[i]]|
    ensures r < |rows| && gr.solved[i] < |rec|
    ensures rows[r].slot != LIST_TERM ==> rows[r].slot < |rec| && r in gr.order
    ensures r in deferRows ==> rows[r].slot == LIST_TERM
  {
    hide ValueAdded;
    if r in gr.order {
      var j :| 0 <= j < |gr.order| && gr.order[j] == r;
    } else {
      assert r in deferRows;
    }
  }

  lemma AddedStep(gr: Graph, i: nat, compress0: seq<Bits>, compress: seq<Bits>, compress': seq<Bits>,
                  rows0: seq<PeelRow>, rows: seq<PeelRow>, rows': seq<PeelRow>,
                  rec0: seq<Block>, rec: seq<Block>, rec': seq<Block>, seen: seq<nat>, deferRows: seq<nat>, r: nat)
    requires AddedTo(gr, i, compress0, compress, rows0, rows, rec0, rec, seen) && Untagged(gr, deferRows, rows)
    requires r < |gr.vecs| && r != gr.order[i] && r !in seen && |gr.inputs| == |gr.vecs|
    requires forall j :: 0 <= j < |gr.order| ==> rows[gr.order[j]].slot == gr.solved[j] < LIST_TERM
    requires forall j, j' :: 0 <= j < j' < |gr.order| ==> gr.order[j] != gr.order[j'] && gr.solved[j] != gr.solved[j']
    requires compress' == compress[r := XorBits(compress[r], compress[gr.order[i]])]
    requires if rows[r].slot == LIST_TERM then rows' == rows && rec' == rec
             else
               && rows[r].slot < |rec|
               && rows' == (if rows[r].isCopied then rows else rows[r := rows[r].(isCopied := true)])
               && rec' == rec[rows[r].slot := if rows[r].isCopied then Add(rec[rows[r].slot], rec[gr.solved[i]])
                                              else Add(rec[gr.solved[i]], gr.inputs[r])]
    ensures AddedTo(gr, i, compress0, compress', rows0, rows', rec0, rec', seen + [r]) && Untagged(gr, deferRows, rows')
  {
    hide ValueAdded, Add, XorBits;
    if r in gr.order {
      var t :| 0 <= t < |gr.order| && gr.order[t] == r;
    } else {
      assert r in deferRows;
    }
    ValueStep(gr, rows0, rows, rows', rec0, rec, rec', i, gr.solved[i], seen, r);
  }

  /** What the references of the i-th solved column and the peeled rows' slots are. */
  lemma ReferenceAt(gr: Graph, deferRows: seq<nat>, deferCols: seq<nat>,
                    rows: seq<PeelRow>, cols: seq<PeelColumn>, refs: seq<seq<nat>>,
                    headRows: nat, deferHeadRows: nat, deferHeadColumns: nat, i: nat)
    requires Wired(gr, deferRows, deferCols, rows, cols, refs, headRows, deferHeadRows, deferHeadColumns)
    ensures GraphOk(gr) && |gr.vecs| <= |rows| < LIST_TERM && |cols| == |refs| < LIST_TERM
    ensures headRows == if gr.order == [] then LIST_TERM else gr.order[0]
    ensures forall j :: 0 <= j < |gr.order| ==> rows[gr.order[j]].slot == gr.solved[j] < |cols|
    ensures forall j, j' :: 0 <= j < j' < |gr.order| ==> gr.order[j] != gr.order[j'] && gr.solved[j] != gr.solved[j']
    ensures i < |gr.order| ==>
      && rows[gr.order[i]].next == (if i + 1 < |gr.order| then gr.order[i + 1] else LIST_TERM)
      && var c := gr.solved[i]; var list := refs[c];
         && (forall k :: 0 <= k < |list| ==> list[k] < |gr.vecs|)
         && (forall k, k' :: 0 <= k < k' < |list| ==> list[k] != list[k'])
         && (forall r :: 0 <= r < |gr.vecs| ==> (r in list <==> gr.vecs[r][c]))
  {
    hide ColChain;
    if i < |gr.order| {
      assert RefersTo(gr.vecs, refs[gr.solved[i]], gr.solved[i]);
    }
  }

  // One row of the reference list: r gets the row added, and its block slot too if it was peeled.
  lemma ValueStep(gr: Graph, rows0: seq<PeelRow>, rows: seq<PeelRow>, rows': seq<PeelRow>,
                  rec0: seq<Block>, rec: seq<Block>, rec': seq<Block>, i: nat, c: nat, seen: seq<nat>, r: nat)
    requires GraphOk(gr) && i < |gr.order| && c == gr.solved[i] && r != gr.order[i] && r !in seen
    requires |rows0| == |rows| == |rows'| && |rec0| == |rec| == |rec'| >= gr.width
    requires forall j :: 0 <= j < |gr.order| ==> gr.order[j] < |rows| && rows[gr.order[j]].slot == gr.solved[j]
    requires forall j, j' :: 0 <= j < j' < |gr.order| ==> gr.order[j] != gr.order[j'] && gr.solved[j] != gr.solved[j']
    requires r < |rows| && rec[c] == rec0[c]
    requires forall j :: 0 <= j < |gr.order| && j != i ==>
               ValueAdded(gr, rows0, rows, rec0, rec, j, c, gr.order[j] in seen)
    requires if r in gr.order then
               var x := rows[r].slot;
               && x < |rec| && r < |gr.inputs|
               && rows' == (if rows[r].isCopied then rows else rows[r := rows[r].(isCopied := true)])
               && rec' == rec[x := if rows[r].isCopied then Add(rec[x], rec[c]) else Add(rec[c], gr.inputs[r])]
             else rows' == rows && rec' == rec
    ensures rec'[c] == rec0[c]
    ensures forall j :: 0 <= j < |gr.order| && j != i ==>
              ValueAdded(gr, rows0, rows', rec0, rec', j, c, gr.order[j] in seen + [r])
  {
    hide Add;
    if r in gr.order {
      var t :| 0 <= t < |gr.order| && gr.order[t] == r;
      assert t != i;
      AddComm(rec[c], gr.inputs[r]);
      assert ValueAdded(gr, rows0, rows, rec0, rec, t, c, false);
    }
    forall j | 0 <= j < |gr.order| && j != i
      ensures ValueAdded(gr, rows0, rows', rec0, rec', j, c, gr.order[j] in seen + [r])
    {
      assert ValueAdded(gr, rows0, rows, rec0, rec, j, c, gr.order[j] in seen);
    }
  }

  /** The value slot of the j-th peeled row, before and after row p's block is (or is not) added. */
  ghost predicate ValueAdded(gr: Graph, rows: seq<PeelRow>, rows': seq<PeelRow>, recovery: seq<Block>,
                             recovery': seq<Block>, j: nat, c: nat, added: bool)
    requires GraphOk(gr) && j < |gr.order| && gr.order[j] < |rows| && gr.order[j] < |rows'|
    requires |recovery'| == |recovery| >= gr.width && c < gr.width
  {
    var r, x := gr.order[j], gr.solved[j];
    if added then
      && rows'[r].isCopied
      && recovery'[x] == Add(if rows[r].isCopied then recovery[x] else gr.inputs[r], recovery[c])
    else rows'[r].isCopied == rows[r].isCopied && recovery'[x] == recovery[x]
  }

  /** What a walk over the deferred rows meets at position k. */
  lemma DeferredRowAt(gr: Graph, deferRows: seq<nat>, deferCols: seq<nat>,
                      rows: seq<PeelRow>, cols: seq<PeelColumn>, refs: seq<seq<nat>>,
                      headRows: nat, deferHeadRows: nat, deferHeadColumns: nat, k: nat)
    requires Wired(gr, deferRows, deferCols, rows, cols, refs, headRows, deferHeadRows, deferHeadColumns)
    ensures deferHeadRows == if deferRows == [] then LIST_TERM else deferRows[0]
    ensures |gr.vecs| <= |rows| < LIST_TERM && |gr.order| == |gr.solved|
    ensures forall r, i :: 0 <= r < |gr.vecs| && 0 <= i < |gr.colMap| ==> gr.colMap[i] < |gr.vecs[r]|
    ensures forall i :: 0 <= i < |deferRows| ==> deferRows[i] < |gr.vecs|
    ensures forall j :: 0 <= j < |gr.order| ==> gr.order[j] < |gr.vecs|
    ensures forall i :: 0 <= i < |deferCols| ==> deferCols[i] < |cols|
    ensures k < |deferRows| ==> rows[deferRows[k]].next == if k + 1 < |deferRows| then deferRows[k + 1] else LIST_TERM
    ensures k < |deferRows| ==> forall i :: 0 <= i < |deferRows| && i != k ==> deferRows[i] != deferRows[k]
    ensures k < |deferRows| ==> forall j :: 0 <= j < |gr.order| ==> gr.order[j] != deferRows[k]
  {
    hide RefersTo, ColChain;
  }

  lemma WiredRow(gr: Graph, deferRows: seq<nat>, deferCols: seq<nat>,
                 rows: seq<PeelRow>, cols: seq<PeelColumn>, refs: seq<seq<nat>>,
                 headRows: nat, deferHeadRows: nat, deferHeadColumns: nat, r: nat)
    requires Wired(gr, deferRows, deferCols, rows, cols, refs, headRows, deferHeadRows, deferHeadColumns) && r < |rows|
    ensures r !in gr.order ==>
      Wired(gr, deferRows, deferCols, rows[r := rows[r].(slot := LIST_TERM)], cols, refs, headRows, deferHeadRows,
            deferHeadColumns)
    ensures Wired(gr, deferRows, deferCols, rows[r := rows[r].(isCopied := true)], cols, refs, headRows, deferHeadRows,
                  deferHeadColumns)
  {
    hide RefersTo, ColChain, NextOf, Distinct;
  }

  lemma MixSteps(pr: Params, g: RowGen)
    requires RowOk(pr, g)
    ensures MixCols(pr, g)[1] == NextColumn(MixCols(pr, g)[0], g.mixA, pr.M(), pr.q)
    ensures MixCols(pr, g)[2] == NextColumn(MixCols(pr, g)[1], g.mixA, pr.M(), pr.q)
  {
    ColumnsStep(g.mixX0, g.mixA, pr.M(), pr.q, 3, 0);
    ColumnsStep(g.mixX0, g.mixA, pr.M(), pr.q, 3, 1);
  }
}
