/** What peeling hands to the solver: which row solves which column, and the check matrix in that order. */
module PeelOutcome {
  import opened ColumnIterator
  import opened CheckMatrix
  import opened PeelState
  import opened Blocks
  import opened Compression

  /** The generators of the n rows and how greedy peeling split rows and columns. */
  datatype Outcome = Outcome(gens: seq<RowGen>, order: seq<nat>, solved: seq<nat>, deferRows: seq<nat>,
                             deferCols: seq<nat>)

  ghost predicate OutcomeOk(pr: Params, oc: Outcome) {
    && pr.Valid() && |oc.gens| == pr.n && (forall r :: 0 <= r < pr.n ==> RowOk(pr, oc.gens[r]))
    && |oc.order| == |oc.solved| && |oc.deferRows| == |oc.deferCols|
    && Distinct(oc.order + oc.deferRows) && Distinct(oc.solved + oc.deferCols)
    && (forall i :: 0 <= i < |oc.order| ==> oc.order[i] < pr.n && oc.solved[i] < pr.n)
    && (forall i :: 0 <= i < |oc.deferRows| ==> oc.deferRows[i] < pr.n && oc.deferCols[i] < pr.n)
    && (forall r: nat :: r < pr.n ==> r in oc.order || r in oc.deferRows)
    && (forall c: nat :: c < pr.n ==> c in oc.solved || c in oc.deferCols)
    && (forall i :: 0 <= i < |oc.order| ==> Lowest(pr, oc, i))
  }

  /** The i-th peeled row has its own column; any other column of it is deferred or solved before. */
  ghost predicate Lowest(pr: Params, oc: Outcome, i: nat)
    requires i < |oc.order| == |oc.solved| && oc.order[i] < |oc.gens| && RowOk(pr, oc.gens[oc.order[i]])
  {
    var all := PeelCols(pr, oc.gens[oc.order[i]]);
    && oc.solved[i] in all
    && forall c :: c in all && c != oc.solved[i] ==> c in oc.deferCols || c in oc.solved[..i]
  }

  ghost function OutcomeOf(s: State, n: nat): Outcome
    requires n <= |s.rows|
  {
    Outcome(seq(n, i requires 0 <= i < n => s.rows[i].gen), s.order, s.solved, s.deferRows, s.deferCols)
  }

  lemma DistinctJoin(a: seq<nat>, b: seq<nat>)
    requires Distinct(a) && Distinct(b) && forall x :: x in a ==> x !in b
    ensures Distinct(a + b)
  {
    forall i, j | 0 <= i < j < |a + b| ensures (a + b)[i] != (a + b)[j] {
      if i < |a| <= j {
        assert a[i] in a && b[j - |a|] in b;
      }
    }
  }

  /** A finished peeling state is such an outcome. */
  lemma OutcomeFromState(pr: Params, s: State)
    requires Inv(s, {}) && GensOk(pr, s.rows, s.colsOf) && |s.cols| == |s.colsOf| == pr.n
    requires forall c :: 0 <= c < |s.cols| ==> s.cols[c].mark != Todo
    requires forall r: nat :: r < |s.colsOf| ==> r in s.order || r in s.deferRows
    requires |s.deferRows| == |s.deferCols|
    ensures OutcomeOk(pr, OutcomeOf(s, pr.n))
  {
    hide RefsOk, CountersBut, DeferredOk, Chain, PeelCols, RowOk, Params.Valid;
    var oc := OutcomeOf(s, pr.n);
    DistinctJoin(s.order, s.deferRows);
    DistinctJoin(s.solved, s.deferCols);
    forall i | 0 <= i < |oc.order| ensures Lowest(pr, oc, i) {
      assert SolvesLast(s.cols, s.colsOf[s.order[i]], s.solved, i);
    }
  }

  // ---- The check matrix ----

  /** The coefficients of a fed row over the n peel columns and the M mix columns. */
  ghost function RowVec(pr: Params, g: RowGen): (v: Bits)
    requires RowOk(pr, g)
    ensures |v| == pr.n + pr.M()
  {
    var all, mix := PeelCols(pr, g), MixCols(pr, g);
    seq(pr.n + pr.M(), c requires 0 <= c < pr.n + pr.M() => if c < pr.n then c in all else c - pr.n in mix)
  }

  /** Elimination column g stands for the g-th deferred column, then for the mix columns. */
  ghost function ColMap(pr: Params, oc: Outcome): (r: seq<nat>)
    requires OutcomeOk(pr, oc)
    ensures forall g :: 0 <= g < |r| ==> r[g] < pr.n + pr.M()
    ensures |r| == |oc.deferCols| + pr.M()
    ensures forall g :: 0 <= g < |oc.deferCols| ==> r[g] == oc.deferCols[g]
    ensures forall g :: |oc.deferCols| <= g < |r| ==> r[g] == pr.n + g - |oc.deferCols|
  {
    oc.deferCols + seq(pr.M(), j requires 0 <= j < pr.M() => pr.n + j)
  }

  ghost function GraphOf(pr: Params, oc: Outcome, inputs: seq<Block>): Graph
    requires OutcomeOk(pr, oc)
  {
    Graph(pr.n + pr.M(), seq(pr.n, r requires 0 <= r < pr.n => RowVec(pr, oc.gens[r])), inputs, oc.order, oc.solved,
          ColMap(pr, oc))
  }

  lemma GraphOfOk(pr: Params, oc: Outcome, inputs: seq<Block>)
    requires OutcomeOk(pr, oc) && |inputs| == pr.n
    ensures GraphOk(GraphOf(pr, oc, inputs))
    ensures Triangular(GraphOf(pr, oc, inputs))
    ensures Partitioned(GraphOf(pr, oc, inputs))
  {
    var gr := GraphOf(pr, oc, inputs);
    assert GraphOk(gr) by {
      hide Params.Valid, RowOk, Lowest, Distinct;
    }
    GraphTriangular(pr, oc, inputs);
    GraphPartitioned(pr, oc, inputs);
  }

  lemma GraphTriangular(pr: Params, oc: Outcome, inputs: seq<Block>)
    requires OutcomeOk(pr, oc) && GraphOk(GraphOf(pr, oc, inputs))
    ensures Triangular(GraphOf(pr, oc, inputs))
  {
    hide Params.Valid, RowOk, PeelCols, MixCols;
    var gr := GraphOf(pr, oc, inputs);
    forall i, j | 0 <= j <= i < |gr.order| ensures gr.vecs[gr.order[j]][gr.solved[i]] <==> i == j {
      assert Lowest(pr, oc, j);
      var c := oc.solved[i];
      assert gr.vecs[gr.order[j]] == RowVec(pr, oc.gens[oc.order[j]]);
      if i > j {
        SolvedApart(oc.solved, oc.deferCols, i, j);
      }
    }
  }

  lemma SolvedApart(solved: seq<nat>, deferCols: seq<nat>, i: nat, j: nat)
    requires Distinct(solved + deferCols) && j < i < |solved|
    ensures solved[i] != solved[j] && solved[i] !in deferCols && solved[i] !in solved[..j]
  {
    var all := solved + deferCols;
    assert all[i] == solved[i] && all[j] == solved[j];
    forall k | 0 <= k < |deferCols| ensures deferCols[k] != solved[i] {
      assert all[|solved| + k] == deferCols[k];
    }
    forall k | 0 <= k < j ensures solved[k] != solved[i] {
      assert all[k] == solved[k];
    }
  }

  lemma GraphPartitioned(pr: Params, oc: Outcome, inputs: seq<Block>)
    requires OutcomeOk(pr, oc)
    ensures Partitioned(GraphOf(pr, oc, inputs))
  {
    hide Params.Valid, RowOk, Lowest, PeelCols;
    var gr := GraphOf(pr, oc, inputs);
    var front := oc.solved + oc.deferCols;
    var mix := seq(pr.M(), j requires 0 <= j < pr.M() => pr.n + j);
    assert gr.solved + gr.colMap == front + mix;
    assert forall i :: 0 <= i < |front| ==> front[i] < pr.n;
    forall c: nat | c < gr.width ensures c in front + mix {
      if c < pr.n {
        assert c in oc.solved || c in oc.deferCols;
      } else {
        assert mix[c - pr.n] == c;
      }
    }
    DistinctJoin(front, mix);
  }
}
