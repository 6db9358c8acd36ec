/** SolveMatrix and GenerateRecoveryBlocks: the stages in order (src/fec/Wirehair.cpp). */
module Solver {
  import opened ColumnIterator
  import opened CheckMatrix
  import opened PeelState
  import opened PeelOutcome
  import opened Blocks
  import opened Compression
  import opened Dense
  import opened DensePass
  import opened GaloisField
  import opened Elimination
  import opened Solving
  import opened Peeling
  import opened Compressing
  import opened Triangle
  import opened CheckSystem
  import opened Assembly
  import opened ColumnValues
  import opened DenseValues
  import opened Substitution
  import opened WindowTable
  import opened Subdiagonal
  import opened AboveDiagonal
  import opened RowSums
  import opened Recovery
  import opened Staging

  // ---- The solver ----

  datatype Result = Win | MoreBlocks

  /** What greedy peeling leaves is a graph the compressor can work on. */
  lemma PeeledGraph(pr: Params, s: State, deferHeadColumns: nat, inputs: seq<Block>, oc: Outcome)
    requires Inv(s, {}) && GensOk(pr, s.rows, s.colsOf) && |s.cols| == |s.colsOf| == |inputs| == pr.n
    requires forall c :: 0 <= c < |s.cols| ==> s.cols[c].mark != Todo
    requires forall r: nat :: r < |s.colsOf| ==> r in s.order || r in s.deferRows
    requires |s.deferRows| == |s.deferCols| && oc == OutcomeOf(s, pr.n)
    requires ColChain(s.cols, deferHeadColumns, s.deferCols) && Recalled(s.cols, s.order, s.solved)
    ensures OutcomeOk(pr, oc) && oc.deferRows == s.deferRows && oc.deferCols == s.deferCols
    ensures var gr := GraphOf(pr, oc, inputs);
            && GraphOk(gr) && Triangular(gr) && Partitioned(gr) && gr.order == s.order && gr.inputs == inputs
            && gr.width == pr.n + pr.M() && |gr.vecs| == pr.n && gr.colMap == MixMap(pr, oc.deferCols)
            && Wired(gr, oc.deferRows, oc.deferCols, s.rows, s.cols, s.refs, s.headRows, s.deferHeadRows,
                     deferHeadColumns)
            && (forall i :: 0 <= i < |gr.order| ==> gr.order[i] < |s.rows| && !s.rows[gr.order[i]].isCopied)
            && (forall r :: 0 <= r < pr.n ==>
                  r < |s.rows| && RowOk(pr, s.rows[r].gen) && gr.vecs[r] == RowVec(pr, s.rows[r].gen)
                                              && oc.gens[r] == s.rows[r].gen)
  {
    hide Inv, Chain, ColChain, Recalled, RowVec, RowOk, Wired, OutcomeOk, Triangular, Partitioned, ColSet, IsPrime;
    WiredFromState(pr, s, deferHeadColumns, inputs);
    GraphOfOk(pr, oc, inputs);
    MapIs(pr, oc);
  }

  /** One solve has peeled these rows, with this outcome: what that leaves in the peeler for another solve, whether or
      not its deferred columns are still listed. */
  ghost predicate Spent(peel: Peeler, oc: Outcome, inputs: seq<Block>)
    reads peel
  {
    && OutcomeOk(peel.pr, oc) && |inputs| == peel.pr.n && |peel.rows| >= peel.pr.n && |peel.cols| == peel.pr.n
    && Wired(LostGraph(peel.pr, oc, inputs), oc.deferRows, [], peel.rows, peel.cols, peel.refs, peel.headRows,
             peel.deferHeadRows, LIST_TERM)
    && (forall r :: 0 <= r < peel.pr.n ==>
          RowOk(peel.pr, peel.rows[r].gen) && RowVec(peel.pr, oc.gens[r]) == RowVec(peel.pr, peel.rows[r].gen))
    && Leftover(peel.cols, oc.deferCols)
  }

  lemma SpentExhausted(peel: Peeler, oc: Outcome, inputs: seq<Block>)
    requires Spent(peel, oc, inputs)
    ensures peel.Exhausted() && |oc.deferRows| == |oc.deferCols|
  {
    hide RowOk, RowVec, Lowest, IsPrime, Chain, RefersTo, Distinct;
    forall c | 0 <= c < |peel.cols| ensures peel.cols[c].mark != Todo {
      if c in oc.solved {
        var i :| 0 <= i < |oc.solved| && oc.solved[i] == c;
      } else {
        assert c in oc.deferCols;
        var i :| 0 <= i < |oc.deferCols| && oc.deferCols[i] == c;
      }
    }
  }

  lemma SpentShape(peel: Peeler, oc: Outcome, inputs: seq<Block>)
    requires Spent(peel, oc, inputs)
    ensures OutcomeOk(peel.pr, oc) && |inputs| == peel.pr.n <= |peel.rows| && peel.pr.Valid() && |oc.gens| == peel.pr.n
  {
    hide Wired, RowOk, RowVec, Lowest, IsPrime;
  }

  /** With no column listed, a spent peeler is the graph without its deferred columns. */
  lemma SpentPeeled(peel: Peeler, oc: Outcome, inputs: seq<Block>)
    requires Spent(peel, oc, inputs) && peel.deferCount == 0 && peel.deferHeadColumns == LIST_TERM
    ensures Peeled(peel, LostGraph(peel.pr, oc, inputs), oc.deferRows, [])
  {
    hide RowOk, RowVec, Lowest, IsPrime, Chain, RefersTo, Distinct;
  }

  /** What a solve worked on, as it leaves it, is spent. */
  lemma SpentFrom(peel: Peeler, oc: Outcome, inputs: seq<Block>, again: bool)
    requires OutcomeOk(peel.pr, oc) && |inputs| == peel.pr.n
    requires var st := StageOf(peel.pr, oc, inputs, again);
      && Peeled(peel, st.gr, st.deferRows, st.deferCols) && Leftover(peel.cols, st.stale)
      && forall g :: 0 <= g < |st.deferCols| ==> st.deferCols[g] < |peel.cols| && peel.cols[st.deferCols[g]].slot == g
    ensures Spent(peel, oc, inputs)
  {
    hide RowOk, RowVec, Lowest, IsPrime, Chain, RefersTo, OutcomeOk, MixMap;
    StageIsOk(peel.pr, oc, inputs, true);
    OutcomeShape(peel.pr, oc);
    ChainNone(peel.cols);
  }

  /** The inputs are no part of what peeling left. */
  lemma SpentOther(peel: Peeler, oc: Outcome, inputs: seq<Block>, held: seq<Block>)
    requires Spent(peel, oc, inputs) && |held| == |inputs|
    ensures Spent(peel, oc, held)
  {
    hide RowOk, RowVec, Lowest, IsPrime, Chain, ColChain, RefersTo, Distinct, OutcomeOk, MixMap;
    StageIsOk(peel.pr, oc, held, true);
  }

  /** Where the copy flags say the peeled rows' blocks are. */
  ghost function HeldBlocks(oc: Outcome, rows: seq<PeelRow>, inputs: seq<Block>,
                            workspace: seq<Block>): (held: seq<Block>)
    requires |inputs| <= |rows|
    ensures |held| == |inputs|
  {
    HeldUpTo(oc, rows, inputs, workspace, |inputs|)
  }

  ghost function HeldUpTo(oc: Outcome, rows: seq<PeelRow>, inputs: seq<Block>,
                          workspace: seq<Block>, k: nat): (held: seq<Block>)
    requires k <= |inputs| <= |rows|
    ensures |held| == k
    ensures forall r :: 0 <= r < k ==>
      held[r] == if r in oc.order && rows[r].isCopied && rows[r].slot < |workspace| then workspace[rows[r].slot]
                 else inputs[r]
  {
    if k == 0 then []
    else HeldUpTo(oc, rows, inputs, workspace, k - 1)
         + [if k - 1 in oc.order && rows[k - 1].isCopied && rows[k - 1].slot < |workspace|
            then workspace[rows[k - 1].slot] else inputs[k - 1]]
  }

  /** The blocks of the peeled rows, as the flags have them, are those of the graph with the held blocks as inputs. */
  lemma AgainLoaded(comp: Compressor, oc: Outcome, inputs: seq<Block>, held: seq<Block>)
    requires comp.pr == comp.peel.pr && Spent(comp.peel, oc, inputs)
    requires comp.inputs == inputs && |comp.recovery| == comp.pr.n + comp.pr.M() + 1
    requires comp.pr.n <= |comp.peel.rows| && held == HeldBlocks(oc, comp.peel.rows, inputs, comp.recovery)
    ensures OutcomeOk(comp.pr, oc) && comp.Loaded(LostGraph(comp.pr, oc, held))
  {
    hide RowOk, RowVec, IsPrime, Chain, ColChain, RefersTo, Distinct, OutcomeOk, Triangular;
    StageIsOk(comp.pr, oc, held, true);
  }

  lemma FirstLoaded(comp: Compressor, oc: Outcome, inputs: seq<Block>)
    requires comp.pr == comp.peel.pr && OutcomeOk(comp.pr, oc)
    requires comp.inputs == inputs && |inputs| == comp.pr.n <= |comp.peel.rows|
    requires |comp.recovery| == comp.pr.n + comp.pr.M() + 1
    requires forall i :: 0 <= i < |oc.order| ==> !comp.peel.rows[oc.order[i]].isCopied
    ensures comp.Loaded(GraphOf(comp.pr, oc, inputs))
  {
    hide RowOk, RowVec, IsPrime, Distinct, OutcomeOk, Triangular, Partitioned;
    GraphOfOk(comp.pr, oc, inputs);
    OutcomeShape(comp.pr, oc);
  }

  /** Greedy peeling on the rows fed so far, or again on a spent peeler. */
  method PeelRows(peel: Peeler, ghost again: bool, ghost before: Outcome, ghost inputs: seq<Block>)
    returns (ghost oc: Outcome)
    requires |inputs| == peel.pr.n
    requires if again then Spent(peel, before, inputs)
             else peel.Idle() && |peel.colsOf| == peel.pr.n && peel.deferCols == []
    modifies peel
    ensures OutcomeOk(peel.pr, oc) && |peel.cols| == peel.pr.n <= |peel.rows| && (again ==> Spent(peel, oc, inputs))
    ensures var st := StageOf(peel.pr, oc, inputs, again);
      Peeled(peel, st.gr, st.deferRows, st.deferCols) && Leftover(peel.cols, st.stale)
    ensures again ==> oc == before
    ensures |oc.gens| == peel.pr.n <= |old(peel.rows)| && SameIds(old(peel.rows), peel.rows)
    ensures !again ==> old(peel.order) <= oc.order && forall r :: 0 <= r < peel.pr.n ==>
              oc.gens[r] == old(peel.rows)[r].gen
    ensures !again ==> forall i :: 0 <= i < |oc.order| ==> oc.order[i] < |peel.rows| && !peel.rows[oc.order[i]].isCopied
  {
    hide Inv, ColChain, Recalled, RowVec, RowOk, Wired, OutcomeOk, Triangular, Partitioned, ColSet, MixMap, IsPrime,
         GraphOk;
    if again {
      SpentExhausted(peel, before, inputs);
      SpentShape(peel, before, inputs);
    }
    ghost var s := peel.View();
    ghost var chosen := peel.GreedyPeeling();
    if again {
      oc := before;
      assert peel.rows == s.rows && peel.cols == s.cols && peel.refs == s.refs;
      assert peel.headRows == s.headRows && peel.deferHeadRows == s.deferHeadRows;
      SpentPeeled(peel, oc, inputs);
    } else {
      oc := OutcomeOf(peel.View(), peel.pr.n);
      assert chosen + [] == chosen;
      PeeledGraph(peel.pr, peel.View(), peel.deferHeadColumns, inputs, oc);
    }
    OutcomeShape(peel.pr, oc);
  }

  /** (1) Greedy peeling, and the bookkeeping of the compressor over what it left. On a spent peeler it changes nothing
      but the list of deferred columns; some rows' blocks are then already in the recovery blocks. */
  method PeelAll(peel: Peeler, inputs: seq<Block>, workspace: seq<Block>, ghost again: bool, ghost before: Outcome)
    returns (comp: Compressor, ghost oc: Outcome, ghost held: seq<Block>)
    requires peel.pr.Valid() && |inputs| == peel.pr.n && |workspace| == peel.pr.n + peel.pr.M() + 1
    requires if again then Spent(peel, before, inputs)
             else peel.Idle() && |peel.colsOf| == peel.pr.n && peel.deferCols == []
    modifies peel
    ensures fresh(comp) && comp.peel == peel && comp.pr == peel.pr
    ensures comp.inputs == inputs && |comp.recovery| == |workspace|
    ensures OutcomeOk(peel.pr, oc) && |held| == peel.pr.n
    ensures if again then oc == before else held == inputs
    ensures var st := StageOf(peel.pr, oc, held, again);
      comp.Joined(st.gr, st.deferRows, st.deferCols) && Leftover(peel.cols, st.stale) && comp.Loaded(st.gr)
    ensures |oc.gens| == peel.pr.n <= |old(peel.rows)| && SameIds(old(peel.rows), peel.rows)
    ensures !again ==> old(peel.order) <= oc.order && forall r :: 0 <= r < peel.pr.n ==>
              oc.gens[r] == old(peel.rows)[r].gen
  {
    hide Peeler.Idle, RowOk, OutcomeOk, IsPrime, GraphOf, Compressor.Loaded, HeldBlocks, Wired, RowVec, Leftover,
         LostGraph, Spent;
    oc := PeelRows(peel, again, before, inputs);
    comp := new Compressor(peel, inputs, workspace);
    if again {
      held := HeldBlocks(oc, peel.rows, inputs, workspace);
      AgainLoaded(comp, oc, inputs, held);
      HeldPeeled(peel, oc, inputs, held);
    } else {
      held := inputs;
      FirstLoaded(comp, oc, inputs);
    }
  }

  lemma HeldPeeled(peel: Peeler, oc: Outcome, inputs: seq<Block>, held: seq<Block>)
    requires OutcomeOk(peel.pr, oc) && |inputs| == |held| == peel.pr.n
    requires Peeled(peel, LostGraph(peel.pr, oc, inputs), oc.deferRows, [])
    ensures Peeled(peel, LostGraph(peel.pr, oc, held), oc.deferRows, [])
  {
    hide RowOk, RowVec, IsPrime, Chain, ColChain, RefersTo, Distinct, OutcomeOk, MixMap;
    StageIsOk(peel.pr, oc, held, true);
  }

  // ---- What a solve comes to ----

  /** The elimination matrix of what a solve works on is singular. */
  ghost predicate Stuck(pr: Params, f: Tables, seeds: Seeds, st: Stage, extra: nat)
    requires StageOk(pr, st)
  {
    var width := |st.gr.colMap|;
    var a := WithHeavy(pr, seeds, LightBits(pr, seeds, st), width, extra);
    Rectangular(a, width) && Singular(f, a, width)
  }

  /** The elimination matrix of these rows is singular. */
  ghost predicate Undetermined(pr: Params, f: Tables, seeds: Seeds, oc: Outcome, inputs: seq<Block>, extra: nat) {
    && OutcomeOk(pr, oc) && |inputs| == pr.n && 0 < pr.d && GraphOk(GraphOf(pr, oc, inputs))
    && var a := GeMatrix(pr, seeds, GraphOf(pr, oc, inputs), oc.deferRows, extra);
    && Rectangular(a, |ColMap(pr, oc)|) && Singular(f, a, |ColMap(pr, oc)|)
  }

  /** In a first solve the binary rows are the reduced check equations. */
  lemma LightIsGe(pr: Params, seeds: Seeds, oc: Outcome, inputs: seq<Block>)
    requires OutcomeOk(pr, oc) && |inputs| == pr.n
    ensures var st := StageOf(pr, oc, inputs, false);
      && StageOk(pr, st) && 0 < pr.d && (forall t :: 0 <= t < |oc.deferRows| ==> oc.deferRows[t] < |st.gr.vecs|)
      && |ColMap(pr, oc)| >= HeavyColumns(pr) && st.gr.colMap == ColMap(pr, oc)
      && LightBits(pr, seeds, st) == GeBits(pr, seeds, st.gr, oc.deferRows)
  {
    hide OutcomeOk, Reduce, RowVec, RowOk, DenseCheck, DenseRow, InvertibleRow, XorBits, Triangular, Image, MixMap;
    StageIsOk(pr, oc, inputs, false);
    OutcomeShape(pr, oc);
    var st := StageOf(pr, oc, inputs, false);
    var bits, ge := LightBits(pr, seeds, st), GeBits(pr, seeds, st.gr, oc.deferRows);
    ColumnsBelow(pr, oc);
    forall r | 0 <= r < |bits| ensures bits[r] == ge[r] {
      assert bits[r] == LightRow(pr, seeds, st, r);
      if r < pr.d {
        ImageNone(st.gr, DenseRow(seeds.dense, pr.d, pr.n, st.gr.width, r));
        DenseReduced(pr, st.gr, oc.deferCols, seeds, r);
      }
    }
  }

  lemma ColumnsBelow(pr: Params, oc: Outcome)
    requires OutcomeOk(pr, oc)
    ensures forall j :: 0 <= j < |oc.solved| ==> oc.solved[j] < pr.n
    ensures forall g :: 0 <= g < |oc.deferCols| ==> oc.deferCols[g] < pr.n
  {
    hide Lowest, RowOk, IsPrime, Distinct;
  }

  lemma FirstStuck(pr: Params, f: Tables, seeds: Seeds, oc: Outcome, inputs: seq<Block>, extra: nat)
    requires OutcomeOk(pr, oc) && |inputs| == pr.n
    ensures StageOk(pr, StageOf(pr, oc, inputs, false))
    ensures Stuck(pr, f, seeds, StageOf(pr, oc, inputs, false), extra) <==>
              Undetermined(pr, f, seeds, oc, inputs, extra)
  {
    hide OutcomeOk, RowVec, RowOk, Triangular, MixMap, LightBits, GeBits, StageOk, GeHeavy, FullRows, Singular,
         Rectangular;
    LightIsGe(pr, seeds, oc, inputs);
    StageIsOk(pr, oc, inputs, false);
  }

  lemma {:induction false} ReduceOther(gr: Graph, gr': Graph, v: Bits, i: nat)
    requires GraphOk(gr) && GraphOk(gr') && gr' == gr.(inputs := gr'.inputs) && |v| == gr.width && i <= |gr.order|
    ensures Reduce(gr', v, i) == Reduce(gr, v, i)
    decreases i
  {
    if i > 0 {
      ReduceOther(gr, gr', v, i - 1);
      ReduceOther(gr, gr', gr.vecs[gr.order[i - 1]], i - 1);
    }
  }

  /** The binary rows do not depend on the blocks. */
  lemma LightOther(pr: Params, seeds: Seeds, st: Stage, st': Stage)
    requires StageOk(pr, st) && StageOk(pr, st') && st' == st.(gr := st.gr.(inputs := st'.gr.inputs))
    ensures LightBits(pr, seeds, st') == LightBits(pr, seeds, st)
  {
    hide Reduce, DenseRow, InvertibleRow, XorBits, Triangular, Apart, Stale, MixMap;
    var bits, bits' := LightBits(pr, seeds, st), LightBits(pr, seeds, st');
    forall r | 0 <= r < |bits| ensures bits'[r] == bits[r] {
      assert bits[r] == LightRow(pr, seeds, st, r) && bits'[r] == LightRow(pr, seeds, st', r);
      var v := if r < pr.d then DenseRow(seeds.dense, pr.d, pr.n, st.gr.width, r)
               else st.gr.vecs[st.deferRows[r - pr.d]];
      ReduceOther(st.gr, st'.gr, v, |st.gr.order|);
    }
  }

  /** Whether the matrix is singular does not depend on the blocks. */
  lemma StuckOther(pr: Params, f: Tables, seeds: Seeds, oc: Outcome, inputs: seq<Block>, held: seq<Block>, again: bool,
                   extra: nat)
    requires OutcomeOk(pr, oc) && |inputs| == |held| == pr.n
    ensures StageOk(pr, StageOf(pr, oc, inputs, again)) && StageOk(pr, StageOf(pr, oc, held, again))
    ensures Stuck(pr, f, seeds, StageOf(pr, oc, held, again), extra) <==>
              Stuck(pr, f, seeds, StageOf(pr, oc, inputs, again), extra)
  {
    hide OutcomeOk, RowVec, RowOk, StageOk, LightBits, WithHeavy, Singular, Rectangular, MixMap;
    StageIsOk(pr, oc, inputs, again);
    StageIsOk(pr, oc, held, again);
    LightOther(pr, seeds, StageOf(pr, oc, inputs, again), StageOf(pr, oc, held, again));
  }

  lemma UndeterminedOther(pr: Params, f: Tables, seeds: Seeds, oc: Outcome, inputs: seq<Block>, held: seq<Block>,
                          extra: nat)
    requires Undetermined(pr, f, seeds, oc, inputs, extra) && |held| == |inputs|
    ensures Undetermined(pr, f, seeds, oc, held, extra)
  {
    hide OutcomeOk, Stuck, StageOf, Rectangular, Singular, GeMatrix, GraphOk;
    FirstStuck(pr, f, seeds, oc, inputs, extra);
    FirstStuck(pr, f, seeds, oc, held, extra);
    StuckOther(pr, f, seeds, oc, inputs, held, false, extra);
  }

  /** The matrix of a solve after a failed one: the dense rows with the deferred columns misread, and the heavy rows. No
      deferred row is in it. */
  ghost function RetryMatrix(pr: Params, seeds: Seeds, oc: Outcome, extra: nat): (a: seq<Row>)
    requires OutcomeOk(pr, oc)
  {
    StageIsOk(pr, oc, Zeros(pr.n), true);
    WithHeavy(pr, seeds, LightBits(pr, seeds, StageOf(pr, oc, Zeros(pr.n), true)), pr.M(), extra)
  }

  ghost predicate RetryFails(pr: Params, f: Tables, seeds: Seeds, oc: Outcome, extra: nat)
    requires OutcomeOk(pr, oc)
  {
    Rectangular(RetryMatrix(pr, seeds, oc, extra), pr.M()) && Singular(f, RetryMatrix(pr, seeds, oc, extra), pr.M())
  }

  lemma AgainStuck(pr: Params, f: Tables, seeds: Seeds, oc: Outcome, held: seq<Block>, extra: nat)
    requires OutcomeOk(pr, oc) && |held| == pr.n
    ensures StageOk(pr, StageOf(pr, oc, held, true))
    ensures Stuck(pr, f, seeds, StageOf(pr, oc, held, true), extra) <==> RetryFails(pr, f, seeds, oc, extra)
  {
    hide OutcomeOk, RowVec, RowOk, LightBits, WithHeavy, Singular, Rectangular, StageOk;
    StageIsOk(pr, oc, Zeros(pr.n), true);
    StuckOther(pr, f, seeds, oc, Zeros(pr.n), held, true, extra);
  }

  /** When nothing was deferred that matrix is the first solve's, and fails again. */
  lemma SameAgain(pr: Params, f: Tables, seeds: Seeds, oc: Outcome, inputs: seq<Block>, extra: nat)
    requires OutcomeOk(pr, oc) && |inputs| == pr.n && oc.deferCols == []
    ensures RetryFails(pr, f, seeds, oc, extra) <==> Undetermined(pr, f, seeds, oc, inputs, extra)
  {
    hide OutcomeOk, RowVec, RowOk, Stuck, StageOk, Undetermined, RetryFails;
    MapIs(pr, oc);
    OutcomeShape(pr, oc);
    assert oc.deferRows == [];
    assert StageOf(pr, oc, inputs, true) == StageOf(pr, oc, inputs, false);
    FirstStuck(pr, f, seeds, oc, inputs, extra);
    AgainStuck(pr, f, seeds, oc, inputs, extra);
  }

  /** The deferred rows that are in the elimination matrix. */
  ghost function InMatrix(st: Stage): (rows: seq<nat>)
    requires |st.deferCols| <= |st.deferRows|
  {
    st.deferRows[..|st.deferCols|]
  }

  /** The state after a successful elimination: what GenerateRecoveryBlocks starts from. */
  ghost predicate Finished(elim: Eliminator, seeds: Seeds, st: Stage)
    reads elim, elim.comp, elim.comp.peel
  {
    var comp := elim.comp;
    && StageOk(comp.pr, st) && elim.df == |st.deferCols| && elim.Shaped() && elim.heavyColumns == HeavyColumns(comp.pr)
    && |st.gr.colMap| == elim.Width() && AllListed(elim.pivots, elim.Light(), elim.extra)
    && Factored(elim.f, WithHeavy(comp.pr, seeds, LightBits(comp.pr, seeds, st), elim.Width(), elim.extra), elim.Rows(),
                elim.pivots, elim.Width(), elim.Width())
    && (forall i :: 0 <= i < elim.firstHeavyColumn ==> elim.pivots[i] < elim.Light())
    && comp.colMap == st.gr.colMap && |comp.recovery| == st.gr.width + 1 && |comp.rowMap| == |st.gr.colMap| + elim.extra
    && (forall t :: 0 <= t < |st.deferRows| ==>
          comp.pr.d + t < |comp.rowMap| && comp.rowMap[comp.pr.d + t] == st.deferRows[t])
    && (forall j :: 0 <= j < |st.gr.order| ==> comp.recovery[st.gr.solved[j]] == Temp(st.gr, j))
    && comp.Joined(st.gr, st.deferRows, st.deferCols) && Leftover(comp.peel.cols, st.stale)
    && (forall g :: 0 <= g < |st.deferCols| ==>
          st.deferCols[g] < |comp.peel.cols| && comp.peel.cols[st.deferCols[g]].slot == g)
  }

  /** Compression and elimination of a peeled matrix: it fails exactly when the matrix is singular. */
  method SolvePeeled(comp: Compressor, f: Tables, seeds: Seeds, extra: nat, ghost st: Stage)
    returns (r: Result, elim: Eliminator)
    requires IsField(f) && comp.pr == comp.peel.pr
    requires comp.Joined(st.gr, st.deferRows, st.deferCols) && StageOk(comp.pr, st)
    requires |comp.recovery| == st.gr.width + 1 && comp.Loaded(st.gr) && Leftover(comp.peel.cols, st.stale)
    requires |st.deferRows| <= |st.deferCols| + extra + 1
    modifies comp, comp.peel`rows, comp.peel`cols
    ensures fresh(elim) && elim.comp == comp && elim.f == f && elim.extra == extra && comp.inputs == old(comp.inputs)
    ensures SameIds(old(comp.peel.rows), comp.peel.rows) && Leftover(comp.peel.cols, st.stale)
    ensures comp.Joined(st.gr, st.deferRows, st.deferCols)
    ensures forall g :: 0 <= g < |st.deferCols| ==>
              st.deferCols[g] < |comp.peel.cols| && comp.peel.cols[st.deferCols[g]].slot == g
    ensures r == Win ==> Finished(elim, seeds, st)
    ensures r != Win <==> Stuck(comp.pr, f, seeds, st, extra)
  {
    hide IsField, Factored, Singular, AllListed, Wired, RowOk, RowVec, LightBits, IsPrime, MixMap, SameIds,
         Compressor.Loaded, Leftover, StageOk, WithHeavy, Rectangular;
    JoinedShape(comp, st.gr, st.deferRows, st.deferCols);
    var df := comp.peel.deferCount;
    Compress(comp, seeds, extra, st);
    elim := new Eliminator(comp, f, df, extra);
    var ok := Eliminate'(elim, seeds, comp.ge);
    r := if ok then Win else MoreBlocks;
  }

  /** Solves the check matrix of n fed rows, or says that they do not determine the blocks, whatever is in the recovery
      blocks' memory. Again after a failure, the deferred columns are no longer listed: as long as the copied deferred
      rows stay inside the matrix, it succeeds exactly when what is left of the matrix is not singular. */
  method SolveMatrix(peel: Peeler, f: Tables, seeds: Seeds, inputs: seq<Block>, extra: nat, workspace: seq<Block>,
                     ghost again: bool, ghost before: Outcome)
    returns (r: Result, elim: Eliminator, ghost oc: Outcome, ghost held: seq<Block>)
    requires IsField(f) && peel.pr.Valid() && |inputs| == peel.pr.n && |workspace| == peel.pr.n + peel.pr.M() + 1
    requires if again then Spent(peel, before, inputs) && |before.deferCols| <= extra + 1
             else peel.Idle() && |peel.colsOf| == peel.pr.n && peel.deferCols == []
    modifies peel
    ensures fresh(elim) && fresh(elim.comp) && elim.comp.peel == peel
    ensures elim.comp.pr == peel.pr && elim.f == f && elim.extra == extra
    ensures OutcomeOk(peel.pr, oc) && |oc.gens| == peel.pr.n <= |old(peel.rows)| && (again ==> oc == before)
    ensures !again ==> old(peel.order) <= oc.order && forall r :: 0 <= r < peel.pr.n ==>
              oc.gens[r] == old(peel.rows)[r].gen
    ensures SameIds(old(peel.rows), peel.rows) && Spent(peel, oc, inputs)
    ensures peel.deferCount == if again then 0 else |oc.deferCols|
    ensures |held| == peel.pr.n && (!again ==> held == inputs) && elim.comp.inputs == inputs
    ensures r == Win ==> Finished(elim, seeds, StageOf(peel.pr, oc, held, again))
    ensures !again ==> (r != Win <==> Undetermined(peel.pr, f, seeds, oc, inputs, extra))
    ensures again ==> (r != Win <==> RetryFails(peel.pr, f, seeds, oc, extra))
  {
    hide IsField, OutcomeOk, Undetermined, IsPrime, Peeler.Idle, SameIds, Spent, GraphOf, LostGraph, Finished, StageOk,
         Stuck, RetryFails, Compressor.Loaded, Wired, RowVec, RowOk, MixMap, Leftover;
    var comp;
    comp, oc, held := PeelAll(peel, inputs, workspace, again, before);
    ghost var rows, st := peel.rows, StageOf(peel.pr, oc, held, again);
    StageIsOk(peel.pr, oc, held, again);
    OutcomeShape(peel.pr, oc);
    JoinedShape(comp, st.gr, st.deferRows, st.deferCols);
    r, elim := SolvePeeled(comp, f, seeds, extra, st);
    IdsChain(old(peel.rows), rows, peel.rows);
    SpentFrom(peel, oc, held, again);
    SpentOther(peel, oc, held, inputs);
    if again {
      AgainStuck(peel.pr, f, seeds, oc, held, extra);
    } else {
      FirstStuck(peel.pr, f, seeds, oc, inputs, extra);
    }
  }

  // ---- (4) Substitution ----

  /** Dense rows write to elimination columns, each to its own. */
  lemma DestinationsOk(pr: Params, seeds: Seeds, gr: Graph, deferRows: seq<nat>, pivots: seq<nat>, rowMap: seq<nat>,
                       recovery: seq<Block>, extra: nat)
    requires Started(pr, seeds, gr, deferRows, pivots, rowMap, recovery, |pivots|) && Apart(gr)
    requires AllListed(pivots, pr.d + |deferRows|, extra)
    requires Distinct(pivots) && pr.d <= |rowMap| && gr.width < LIST_TERM
    ensures DestOk(gr, rowMap[..pr.d], pr.d, |recovery|)
    ensures forall i :: 0 <= i < |pivots| && pivots[i] < pr.d ==> rowMap[pivots[i]] == gr.colMap[i]
    ensures forall i :: 0 <= i < |pivots| && pivots[i] >= pr.d ==> gr.colMap[i] !in rowMap[..pr.d]
  {
    hide StartValue;
    var all, dest := gr.solved + gr.colMap, rowMap[..pr.d];
    forall rho | 0 <= rho < pr.d
      ensures exists i :: 0 <= i < |pivots| && pivots[i] == rho && dest[rho] == gr.colMap[i]
    {
      assert rho in pivots;
      var i :| 0 <= i < |pivots| && pivots[i] == rho;
      assert rowMap[pivots[i]] == gr.colMap[i];
    }
    forall i, j | 0 <= i < j < |gr.colMap| ensures gr.colMap[i] != gr.colMap[j] {
      assert all[|gr.solved| + i] != all[|gr.solved| + j];
    }
    forall i, j | 0 <= i < |gr.colMap| && 0 <= j < |gr.solved| ensures gr.colMap[i] != gr.solved[j] {
      assert all[|gr.solved| + i] != all[j];
    }
  }

  /** Once the dense rows' peeled columns are in, every elimination column holds its pivot row's value. */
  lemma ValuesReady(pr: Params, seeds: Seeds, gr: Graph, deferRows: seq<nat>, deferCols: seq<nat>, pivots: seq<nat>,
                    rowMap: seq<nat>, recovery: seq<Block>, recovery': seq<Block>, extra: nat)
    requires Started(pr, seeds, gr, deferRows, pivots, rowMap, recovery, |pivots|) && Apart(gr)
    requires AllListed(pivots, pr.d + |deferRows|, extra)
    requires Distinct(pivots) && pr.d <= |rowMap| && gr.width < LIST_TERM
    requires gr.colMap == MixMap(pr, deferCols)
    requires forall j :: 0 <= j < |gr.order| ==> gr.solved[j] < pr.n
    requires forall g :: 0 <= g < |deferCols| ==> deferCols[g] < pr.n
    requires |recovery'| == |recovery|
    requires forall rho :: 0 <= rho < pr.d ==> rowMap[rho] < |recovery|
    requires forall rho :: 0 <= rho < pr.d ==>
      recovery'[rowMap[rho]]
      == Add(recovery[rowMap[rho]], RowValue(gr, DenseRow(seeds.dense, pr.d, pr.n, gr.width, rho)))
    requires forall x :: 0 <= x < |recovery| && x !in rowMap[..pr.d] ==> recovery'[x] == recovery[x]
    ensures PullBlocks(recovery', gr.colMap) == PivotValues(pr, seeds, gr, deferRows, pivots)
  {
    hide ReduceValue, Add, Apart, AllListed, DenseRow, DenseCheck, MixMap, Zero;
    DestinationsOk(pr, seeds, gr, deferRows, pivots, rowMap, recovery, extra);
    forall i | 0 <= i < |gr.colMap| ensures recovery'[gr.colMap[i]] == GeValue(pr, seeds, gr, deferRows, pivots[i]) {
      assert recovery[gr.colMap[i]] == StartValue(pr, seeds, gr, deferRows, pivots[i]);
      if pivots[i] < pr.d {
        DenseReduced(pr, gr, deferCols, seeds, pivots[i]);
        AddZero(RowValue(gr, DenseRow(seeds.dense, pr.d, pr.n, gr.width, pivots[i])));
      }
    }
  }

  lemma TempsFrom(elim: Eliminator, seeds: Seeds, st: Stage)
    requires Finished(elim, seeds, st)
    ensures TempsHeld(st.gr, elim.comp.pr.n, elim.comp.peel.cols, elim.comp.recovery)
  {
    hide Factored, AllListed, Wired, LightBits, Temp, KnownColumn, IsPrime, MixMap, RowOk, RowVec, Triangular, Apart,
         Stale, Leftover, Eliminator.Shaped, WithHeavy;
    var comp, peel := elim.comp, elim.comp.peel;
    JoinedShape(comp, st.gr, st.deferRows, st.deferCols);
    KnownAll(comp.pr, st, peel.rows, peel.cols, peel.refs, peel.headRows, peel.deferHeadRows, peel.deferHeadColumns);
  }

  lemma InFormFrom(elim: Eliminator, seeds: Seeds, st: Stage)
    requires Finished(elim, seeds, st) && IsField(elim.f)
    ensures InForm(elim) && ScratchFree(elim) && DiagonalSet(Us(elim)) && 0 < elim.Width()
    ensures elim.firstHeavyColumn + CAT_HEAVY_MAX_COLS >= elim.Width()
  {
    hide Wired, LightBits, Temp, IsPrime, RowOk, RowVec, IsField, RowFactored, Triangular, Leftover, WithHeavy;
    var comp := elim.comp;
    forall i | 0 <= i < |elim.pivots| ensures elim.pivots[i] < |comp.ge| + |elim.heavy| {
      assert elim.pivots[i] in elim.pivots;
    }
    var gr, peel := st.gr, comp.peel;
    JoinedShape(comp, gr, st.deferRows, st.deferCols);
    var all := gr.solved + gr.colMap;
    forall i, j | 0 <= i < j < |gr.colMap| ensures gr.colMap[i] != gr.colMap[j] {
      assert all[|gr.solved| + i] != all[|gr.solved| + j];
    }
    forall c | 0 <= c < comp.pr.n && peel.cols[c].mark == Solved ensures c !in comp.colMap {
      ScratchColumn(comp.pr, gr, st.deferRows, st.deferCols, peel.rows, peel.cols, peel.refs, peel.headRows,
                    peel.deferHeadRows, peel.deferHeadColumns, c);
    }
  }

  lemma ScratchColumn(pr: Params, gr: Graph, deferRows: seq<nat>, deferCols: seq<nat>,
                      rows: seq<PeelRow>, cols: seq<PeelColumn>, refs: seq<seq<nat>>,
                      headRows: nat, deferHeadRows: nat, deferHeadColumns: nat, c: nat)
    requires Wired(gr, deferRows, deferCols, rows, cols, refs, headRows, deferHeadRows, deferHeadColumns)
    requires gr.colMap == MixMap(pr, deferCols) && c < |cols| == pr.n && cols[c].mark == Solved
    ensures c !in gr.colMap
  {
    hide Chain, ColChain, RefersTo, Distinct, GraphOk;
    forall g | 0 <= g < |gr.colMap| ensures gr.colMap[g] != c {
      if g < |deferCols| {
        assert cols[deferCols[g]].mark == Deferred;
      }
    }
  }

  lemma PivotShape(elim: Eliminator, seeds: Seeds, st: Stage)
    requires Finished(elim, seeds, st)
    ensures Distinct(elim.pivots) && |elim.pivots| == elim.Width() && elim.comp.pr.n + elim.comp.pr.M() < LIST_TERM
    ensures elim.comp.pr.d <= elim.Width() && |InMatrix(st)| == elim.df
  {
    hide GraphOk, Wired, LightBits, Temp, IsPrime, RowOk, RowVec, IsField, RowFactored, Triangular, Apart, Stale,
         Leftover, WithHeavy;
    JoinedShape(elim.comp, st.gr, st.deferRows, st.deferCols);
  }

  lemma DestBounds(gr: Graph, rowMap: seq<nat>, d: nat, size: nat)
    requires d <= |rowMap| && DestOk(gr, rowMap[..d], d, size)
    ensures forall rho :: 0 <= rho < d ==> rowMap[rho] < size
  {
    forall rho | 0 <= rho < d ensures rowMap[rho] < size {
      assert rowMap[..d][rho] == rowMap[rho];
    }
  }

  /** The values of the pivot rows, in the blocks of the columns they solve. */
  method FormValues(elim: Eliminator, comp: Compressor, seeds: Seeds, ghost st: Stage)
    requires elim.comp == comp && Finished(elim, seeds, st) && IsField(elim.f) && |comp.inputs| == comp.pr.n
    requires forall t :: 0 <= t < |st.deferCols| ==> comp.inputs[st.deferRows[t]] == st.gr.inputs[st.deferRows[t]]
    modifies comp`recovery, comp`rowMap
    ensures StageOk(comp.pr, st) && 0 < comp.pr.d && |comp.recovery| == st.gr.width + 1
    ensures comp.Joined(st.gr, st.deferRows, st.deferCols)
    ensures (forall t :: 0 <= t < |InMatrix(st)| ==> InMatrix(st)[t] < |st.gr.vecs|)
    ensures PullBlocks(comp.recovery, st.gr.colMap) == PivotValues(comp.pr, seeds, st.gr, InMatrix(st), elim.pivots)
    ensures InForm(elim) && ScratchFree(elim)
  {
    hide GraphOk, Factored, AllListed, Wired, Apart, LightBits, Temp, KnownColumn, IsPrime, MixMap, RowOk, RowVec,
         IsField, TempsHeld, Started, DestOk, Add, RowValue, Triangular, Stale, Leftover, WithHeavy, Eliminator.Shaped;
    ghost var gr, deferRows := st.gr, InMatrix(st);
    JoinedShape(comp, gr, st.deferRows, st.deferCols);
    TempsFrom(elim, seeds, st);
    InFormFrom(elim, seeds, st);
    PivotShape(elim, seeds, st);
    InitializeColumnValues(elim, comp, seeds, gr, deferRows);
    DestinationsOk(comp.pr, seeds, gr, deferRows, elim.pivots, comp.rowMap, comp.recovery, elim.extra);
    ghost var recovery := comp.recovery;
    DestBounds(gr, comp.rowMap, comp.pr.d, |recovery|);
    MultiplyDenseValues(comp, seeds.dense, gr);
    ValuesReady(comp.pr, seeds, gr, deferRows, st.deferCols, elim.pivots, comp.rowMap, recovery, comp.recovery,
                elim.extra);
  }

  /** The elimination columns, solved. */
  method SolveColumns(elim: Eliminator)
    requires InForm(elim) && ScratchFree(elim) && DiagonalSet(Us(elim)) && 0 < elim.Width()
    requires elim.firstHeavyColumn + CAT_HEAVY_MAX_COLS >= elim.Width()
    modifies elim.comp`recovery
    ensures InForm(elim) && Us(elim) == old(Us(elim)) && |elim.comp.recovery| == old(|elim.comp.recovery|)
    ensures Square(Us(elim)) && Vals(elim) == Solution(elim.f, Us(elim), old(Vals(elim)))
  {
    hide InForm, Us, Vals, DiagonalSet, ForwardAll, BackwardAll;
    AddSubdiagonalValues(elim);
    assert ScratchFree(elim);
    BackSubstituteAboveDiagonal(elim);
  }

  lemma PeeledFromRows(gr: Graph, recovery: seq<Block>)
    requires GraphOk(gr) && |recovery| >= gr.width && RowsHold(gr, recovery, |gr.order|)
    ensures PeeledHold(gr, recovery[..gr.width])
  {
    forall j | 0 <= j < |gr.order|
      ensures Dot(gr.vecs[gr.order[j]], recovery[..gr.width], gr.width) == gr.inputs[gr.order[j]]
    {
      DotSame(gr.vecs[gr.order[j]], gr.vecs[gr.order[j]], recovery, recovery[..gr.width], gr.width);
    }
  }

  lemma PullsKept(gr: Graph, recovery: seq<Block>, recovery': seq<Block>)
    requires GraphOk(gr) && Partitioned(gr) && gr.width <= |recovery| == |recovery'|
    requires forall x :: 0 <= x < |recovery| && x !in gr.solved ==> recovery'[x] == recovery[x]
    ensures PullBlocks(recovery'[..gr.width], gr.colMap) == PullBlocks(recovery, gr.colMap)
  {
    var all := gr.solved + gr.colMap;
    forall g | 0 <= g < |gr.colMap| ensures gr.colMap[g] !in gr.solved {
      forall j | 0 <= j < |gr.solved| ensures gr.solved[j] != gr.colMap[g] {
        assert all[j] != all[|gr.solved| + g];
      }
    }
  }

  /** The blocks after the last stage are the one solution. */
  lemma {:induction false} RecoveryDone(pr: Params, f: Tables, seeds: Seeds, oc: Outcome, inputs: seq<Block>,
                                        extra: nat, rows: seq<Row>, pivots: seq<nat>, solved: seq<Block>,
                                        recovery: seq<Block>)
    requires IsField(f) && OutcomeOk(pr, oc) && |inputs| == pr.n && 0 < pr.d && GraphOk(GraphOf(pr, oc, inputs))
    requires var gr, n := GraphOf(pr, oc, inputs), |ColMap(pr, oc)|;
      && (forall t :: 0 <= t < |oc.deferRows| ==> oc.deferRows[t] < |gr.vecs|)
      && Factored(f, GeMatrix(pr, seeds, gr, oc.deferRows, extra), rows, pivots, n, n)
      && AllListed(pivots, pr.d + |oc.deferRows|, extra)
      && pr.n + pr.M() <= |solved| == |recovery| && Square(PivotRows(rows, pivots))
      && PullBlocks(solved, gr.colMap)
           == Solution(f, PivotRows(rows, pivots), PivotValues(pr, seeds, gr, oc.deferRows, pivots))
      && RowsHold(gr, recovery, |gr.order|)
      && forall x :: 0 <= x < |recovery| && x !in gr.solved ==> recovery[x] == solved[x]
    ensures pr.Valid() && |oc.gens| == pr.n && forall r :: 0 <= r < pr.n ==> RowOk(pr, oc.gens[r])
    ensures forall xs: seq<Block> :: |xs| == pr.n + pr.M() ==>
              (Satisfied(pr, f, seeds, oc.gens, inputs, xs) <==> xs == recovery[..pr.n + pr.M()])
  {
    hide OutcomeOk, GraphOk, Factored, AllListed, Partitioned, Triangular, GeMatrix, IsPrime, RowOk, RowVec, IsField,
         PivotValues, Solution, Satisfied, PivotRows, RowsHold, PeeledHold, Params.Valid;
    var gr := GraphOf(pr, oc, inputs);
    OutcomeShape(pr, oc);
    GraphOfOk(pr, oc, inputs);
    PeeledFromRows(gr, recovery);
    PullsKept(gr, solved, recovery);
    forall xs: seq<Block> | |xs| == pr.n + pr.M()
      ensures Satisfied(pr, f, seeds, oc.gens, inputs, xs) <==> xs == recovery[..pr.n + pr.M()]
    {
      RecoveryIsSolution(pr, f, seeds, oc, inputs, extra, rows, pivots, recovery[..pr.n + pr.M()], xs);
    }
  }

  /** The recovery blocks are the one solution of every check equation. */
  ghost predicate Unique(pr: Params, f: Tables, seeds: Seeds, gens: seq<RowGen>, inputs: seq<Block>,
                         recovery: seq<Block>) {
    && pr.Valid() && |gens| == |inputs| == pr.n && |recovery| == pr.n + pr.M()
    && (forall r :: 0 <= r < pr.n ==> RowOk(pr, gens[r]))
    && forall xs: seq<Block> :: |xs| == pr.n + pr.M() ==>
         (Satisfied(pr, f, seeds, gens, inputs, xs) <==> xs == recovery)
  }

  /** (4) Substitution. After a first solve the recovery blocks are the one solution; after another one the peeled rows
      hold of them, and that is all: the blocks of the columns no longer listed are whatever was there. */
  method GenerateRecoveryBlocks(elim: Eliminator, seeds: Seeds, ghost oc: Outcome, ghost inputs: seq<Block>,
                                ghost held: seq<Block>, ghost again: bool)
    requires OutcomeOk(elim.comp.pr, oc) && |inputs| == |held| == elim.comp.pr.n && IsField(elim.f)
    requires elim.comp.inputs == inputs && (!again ==> held == inputs)
    requires Finished(elim, seeds, StageOf(elim.comp.pr, oc, held, again))
    modifies elim.comp`recovery, elim.comp`rowMap
    ensures |elim.comp.recovery| == elim.comp.pr.n + elim.comp.pr.M() + 1
    ensures GraphOk(GraphOf(elim.comp.pr, oc, inputs))
    ensures RowsHold(GraphOf(elim.comp.pr, oc, inputs), elim.comp.recovery, |oc.order|)
    ensures !again ==>
      Unique(elim.comp.pr, elim.f, seeds, oc.gens, inputs, elim.comp.recovery[..elim.comp.pr.n + elim.comp.pr.M()])
  {
    hide OutcomeOk, GraphOk, Factored, AllListed, Triangular, IsPrime, MixMap, RowOk, RowVec, IsField, PivotValues,
         LightBits, Solution, Satisfied, PivotRows, InForm, RowsHold, Params.Valid, ScratchFree, DiagonalSet, Wired,
         PullBlocks, RowCleared, Apart, Stale, Leftover, WithHeavy, Eliminator.Shaped, GeBits, Temp, Partitioned;
    var comp := elim.comp;
    ghost var st := StageOf(comp.pr, oc, held, again);
    ghost var rows, pivots, f, extra := elim.Rows(), elim.pivots, elim.f, elim.extra;
    StageIsOk(comp.pr, oc, held, again);
    OutcomeShape(comp.pr, oc);
    InFormFrom(elim, seeds, st);
    FormValues(elim, comp, seeds, st);
    MapBelow(st.gr);
    assert Vals(elim) == PullBlocks(comp.recovery, st.gr.colMap);
    SolveColumns(elim);
    ghost var solved := comp.recovery;
    JoinedInputs(comp, oc, held, inputs, again);
    ghost var st' := StageOf(comp.pr, oc, inputs, again);
    StageIsOk(comp.pr, oc, inputs, again);
    Substitute(comp, st'.gr, st'.deferRows, st'.deferCols);
    RowsHoldOther(comp.pr, oc, inputs, comp.recovery, again);
    if !again {
      LightIsGe(comp.pr, seeds, oc, inputs);
      assert InMatrix(st) == oc.deferRows;
      RecoveryDone(comp.pr, f, seeds, oc, inputs, extra, rows, pivots, solved, comp.recovery);
    }
  }

  lemma MapBelow(gr: Graph)
    requires GraphOk(gr)
    ensures forall g :: 0 <= g < |gr.colMap| ==> gr.colMap[g] < gr.width
  {}

  lemma JoinedInputs(comp: Compressor, oc: Outcome, held: seq<Block>, inputs: seq<Block>, again: bool)
    requires OutcomeOk(comp.pr, oc) && |inputs| == |held| == comp.pr.n && (!again ==> held == inputs)
    requires var st := StageOf(comp.pr, oc, held, again); comp.Joined(st.gr, st.deferRows, st.deferCols)
    ensures var st := StageOf(comp.pr, oc, inputs, again); comp.Joined(st.gr, st.deferRows, st.deferCols)
  {
    hide OutcomeOk, Peeled;
    if again {
      HeldPeeled(comp.peel, oc, held, inputs);
    }
  }

  lemma RowsHoldOther(pr: Params, oc: Outcome, inputs: seq<Block>, recovery: seq<Block>, again: bool)
    requires OutcomeOk(pr, oc) && |inputs| == pr.n
    requires var st := StageOf(pr, oc, inputs, again);
      GraphOk(st.gr) && |recovery| >= st.gr.width && RowsHold(st.gr, recovery, |st.gr.order|)
    ensures var gr := GraphOf(pr, oc, inputs);
              GraphOk(gr) && |recovery| >= gr.width && RowsHold(gr, recovery, |oc.order|)
  {
    hide OutcomeOk, RowVec, RowOk;
    StageIsOk(pr, oc, inputs, false);
  }
}
