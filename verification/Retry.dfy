/** The solve after a failed one (src/fec/Wirehair.cpp:5588-5637). The decoder stores no block after the n-th, so its
    row count stays at n and each further block runs the whole solver again on the same rows; ResumeSolveMatrix is never
    reached. That solve starts from peeling that has already marked every column. */
module Retry {
  import opened ColumnIterator
  import opened CheckMatrix
  import opened PeelState
  import opened PeelOutcome
  import opened Blocks
  import opened Compression
  import opened GaloisField
  import opened Peeling
  import opened Compressing
  import opened Triangle
  import opened CheckSystem
  import opened Recovery
  import opened Failure
  import opened Staging
  import opened Solver
  import opened Codec

  /** What the second peeling hands on: the same rows, and no deferred column. */
  ghost function Again(oc: Outcome): Outcome {
    oc.(deferCols := [])
  }

  /** Peeling again empties the list of deferred columns and its count; the deferred rows stay listed, and the columns
      stay marked. */
  method PeelAgain(peel: Peeler, ghost oc: Outcome, ghost inputs: seq<Block>)
    requires Spent(peel, oc, inputs)
    modifies peel
    ensures peel.deferCount == 0 && ColChain(peel.cols, peel.deferHeadColumns, Again(oc).deferCols)
    ensures peel.View() == old(peel.View())
    ensures Chain(peel.rows, peel.deferHeadRows, oc.deferRows) && |oc.deferRows| == |oc.deferCols|
    ensures forall c :: 0 <= c < |peel.cols| ==> peel.cols[c].mark == (if c in oc.deferCols then Deferred else Solved)
  {
    hide RowOk, RowVec, Lowest, IsPrime, RefersTo, Distinct, NextOf;
    SpentExhausted(peel, oc, inputs);
    SpentMarks(peel, oc, inputs);
    ghost var s := peel.View();
    ghost var chosen := peel.GreedyPeeling();
    assert peel.cols == s.cols && peel.rows == s.rows && peel.deferHeadRows == s.deferHeadRows;
  }

  lemma SpentMarks(peel: Peeler, oc: Outcome, inputs: seq<Block>)
    requires Spent(peel, oc, inputs)
    ensures forall c :: 0 <= c < |peel.cols| ==> peel.cols[c].mark == (if c in oc.deferCols then Deferred else Solved)
    ensures Chain(peel.rows, peel.deferHeadRows, oc.deferRows)
  {
    hide RowOk, RowVec, Lowest, IsPrime, RefersTo, NextOf;
    forall c | 0 <= c < |peel.cols| ensures peel.cols[c].mark == (if c in oc.deferCols then Deferred else Solved) {
      if c in oc.deferCols {
        var i :| 0 <= i < |oc.deferCols| && oc.deferCols[i] == c;
      } else {
        var i :| 0 <= i < |oc.solved| && oc.solved[i] == c;
      }
    }
  }

  /** The second solve works on the fed rows' system exactly when the first peeling deferred no column: otherwise the
      columns that were deferred are neither solved by a row nor left for elimination. */
  lemma RetrySound(pr: Params, oc: Outcome, inputs: seq<Block>)
    requires OutcomeOk(pr, oc) && |inputs| == pr.n
    ensures OutcomeOk(pr, Again(oc)) <==> oc.deferCols == []
    ensures Partitioned(LostGraph(pr, oc, inputs)) <==> oc.deferCols == []
    ensures forall c: nat :: c < pr.n ==> (c !in Again(oc).solved && c !in Again(oc).deferCols <==> c in oc.deferCols)
  {
    RetryColumns(pr, oc);
    if oc.deferCols == [] {
      assert Again(oc) == oc;
      GraphOfOk(pr, oc, inputs);
      MapIs(pr, oc);
    } else {
      RetryGap(pr, oc, inputs);
    }
  }

  lemma RetryColumns(pr: Params, oc: Outcome)
    requires OutcomeOk(pr, oc)
    ensures forall c: nat :: c < pr.n ==> (c !in oc.solved <==> c in oc.deferCols)
  {
    hide Lowest, RowOk, Params.Valid;
    var all := oc.solved + oc.deferCols;
    forall c: nat | c < pr.n && c in oc.deferCols ensures c !in oc.solved {
      var g :| 0 <= g < |oc.deferCols| && oc.deferCols[g] == c;
      forall i | 0 <= i < |oc.solved| ensures oc.solved[i] != c {
        assert all[i] == oc.solved[i] && all[|oc.solved| + g] == c;
      }
    }
  }

  lemma RetryGap(pr: Params, oc: Outcome, inputs: seq<Block>)
    requires OutcomeOk(pr, oc) && oc.deferCols != []
    ensures !OutcomeOk(pr, Again(oc))
    ensures !Partitioned(LostGraph(pr, oc, inputs))
  {
    hide Lowest, RowOk, Params.Valid, Distinct;
    RetryColumns(pr, oc);
    var c := oc.deferCols[0];
    assert c in oc.deferCols;
    var gr := LostGraph(pr, oc, inputs);
    assert c < gr.width && c !in gr.solved + gr.colMap;
    assert |Again(oc).deferRows| != |Again(oc).deferCols|;
  }

  /** No retry can win rightly: beside the encoder's recovery blocks, the stored blocks of a stalled decoder have
      another solution, and no later block is stored. */
  lemma OtherRecovery(d: Decoder, message: seq<Block>, recovery: seq<Block>) returns (other: seq<Block>)
    requires d.Stalled() && Encoded(d.ag, message, recovery) && Received(d.ag, message, recovery, d.ids, d.inputs)
    ensures |other| == |recovery| == d.ag.pr.n + d.ag.pr.M() && other != recovery
    ensures Satisfied(d.ag.pr, d.ag.f, d.ag.seeds, GensOf(d.ag, d.ids), d.inputs, recovery)
    ensures Satisfied(d.ag.pr, d.ag.f, d.ag.seeds, GensOf(d.ag, d.ids), d.inputs, other)
  {
    hide Params.Valid, IsField, RowOk, Spent, FedRows, BlockOf, Encoded, Singular, GeMatrix, GraphOk, Satisfied,
         OutcomeOk, Trim, GenOf;
    EncoderSatisfies(d.ag, message, recovery, d.ids, d.inputs);
    other := NotUnique(d.ag.pr, d.ag.f, d.ag.seeds, d.outcome, d.inputs, CAT_MAX_EXTRA_ROWS, recovery);
  }

  // ---- When the first peeling defers a column ----

  /** With no column deferred every row is peeled, and its columns are its own and those solved before. */
  lemma NothingDeferred(pr: Params, oc: Outcome, i: nat)
    requires OutcomeOk(pr, oc) && oc.deferCols == [] && i < |oc.order|
    ensures oc.solved[i] in PeelCols(pr, oc.gens[oc.order[i]])
    ensures forall c :: c in PeelCols(pr, oc.gens[oc.order[i]]) ==> c in oc.solved[..i + 1]
    ensures i > 0 ==> oc.solved[i] !in oc.solved[..i]
  {
    hide Params.Valid, RowOk, PeelCols;
    assert Lowest(pr, oc, i);
    assert oc.solved[..i + 1] == oc.solved[..i] + [oc.solved[i]];
    forall k | 0 <= k < i ensures oc.solved[k] != oc.solved[i] {
      assert (oc.solved + oc.deferCols)[k] == oc.solved[k] && (oc.solved + oc.deferCols)[i] == oc.solved[i];
    }
  }

  /** Two rows with the same columns, such as those of an id fed twice, always defer one. */
  lemma TwinsDefer(pr: Params, oc: Outcome, r1: nat, r2: nat)
    requires OutcomeOk(pr, oc) && r1 < r2 < pr.n && oc.gens[r1] == oc.gens[r2]
    ensures oc.deferCols != []
  {
    hide Params.Valid, RowOk, PeelCols, Lowest, Distinct;
    if oc.deferCols == [] {
      assert r1 in oc.order && r2 in oc.order;
      var i1 :| 0 <= i1 < |oc.order| && oc.order[i1] == r1;
      var i2 :| 0 <= i2 < |oc.order| && oc.order[i2] == r2;
      var i, j := if i1 < i2 then i1 else i2, if i1 < i2 then i2 else i1;
      NothingDeferred(pr, oc, i);
      NothingDeferred(pr, oc, j);
      Earlier(oc.solved, i, j);
    }
  }

  lemma Earlier(solved: seq<nat>, i: nat, j: nat)
    requires i < j < |solved| && solved[j] in solved[..i + 1]
    ensures solved[j] in solved[..j]
  {
    var k :| 0 <= k < i + 1 && solved[..i + 1][k] == solved[j];
    assert solved[..j][k] == solved[j];
  }

  /** Rows of weight two or more alone cannot be peeled without deferring a column. */
  lemma HeavyRowsDefer(pr: Params, oc: Outcome)
    requires OutcomeOk(pr, oc) && forall r :: 0 <= r < pr.n ==> oc.gens[r].weight >= 2
    ensures oc.deferCols != []
  {
    hide PeelCols, Lowest, IsPrime;
    if oc.deferCols == [] {
      assert 0 in oc.order;
      NothingDeferred(pr, oc, 0);
      ColsDistinct(pr, oc.gens[oc.order[0]]);
      var c := OtherThan(PeelCols(pr, oc.gens[oc.order[0]]), oc.solved[0]);
    }
  }

  lemma OtherThan(s: seq<nat>, x: nat) returns (c: nat)
    requires Distinct(s) && |s| >= 2
    ensures c in s && c != x
  {
    c := if s[0] != x then s[0] else s[1];
  }

  // ---- Runs whose first solve fails ----

  /** A reference list holds no more rows than were fed. */
  lemma RefsShort(peel: Peeler, c: nat)
    requires peel.Idle() && c < |peel.refs|
    ensures |peel.refs[c]| <= |peel.colsOf|
  {
    hide ListsOk, MarksOk, PeeledOk, DeferredOk, CountersBut;
    var list := peel.refs[c];
    assert Lists(list, c, peel.colsOf);
    var elems := set r | r in list;
    DistinctSize(list, elems);
    SubsetSize(elems, Below(|peel.colsOf|));
  }

  lemma RowsSum(ag: Agreement, ids: seq<nat>, inputs: seq<Block>, xs: seq<Block>)
    requires ag.Valid() && Unique(ag.pr, ag.f, ag.seeds, GensOf(ag, ids), inputs, xs)
    ensures |xs| == ag.pr.n + ag.pr.M() && |ids| == |inputs| == ag.pr.n
    ensures forall r :: 0 <= r < ag.pr.n ==>
              Dot(RowVec(ag.pr, GensOf(ag, ids)[r]), xs, ag.pr.n + ag.pr.M()) == inputs[r]
  {
    hide Params.Valid, IsField, RowOk, RowVec, Dot, DenseCheck;
    assert Satisfied(ag.pr, ag.f, ag.seeds, GensOf(ag, ids), inputs, xs);
  }

  /** Two different blocks under one id satisfy no system. */
  lemma Contradictory(ag: Agreement, id: nat, x: Block, y: Block)
    requires ag.Valid() && ag.pr.n == 2 && x != y
    ensures !Determined(ag, [id, id], [x, y])
  {
    hide Params.Valid, IsField, RowOk, RowVec, Dot, DenseCheck;
    assert GensOf(ag, [id, id])[0] == GensOf(ag, [id, id])[1];
    if Determined(ag, [id, id], [x, y]) {
      var xs :| Unique(ag.pr, ag.f, ag.seeds, GensOf(ag, [id, id]), [x, y], xs);
      RowsSum(ag, [id, id], [x, y], xs);
    }
  }

  /** A decoder for a message of two blocks that has been fed block 0 twice. */
  method FeedTwice(ag: Agreement, x: Block, y: Block) returns (d: Decoder)
    requires ag.Valid() && ag.pr.n == 2
    ensures fresh(d) && fresh(d.peel) && d.ag == ag && d.Feeding()
    ensures d.rowCount == 2 && d.ids == [0, 0] && d.inputs == [x, y]
    ensures d.peel.order != []
  {
    hide Params.Valid, IsField, Trim, RowOk, Peeler.Idle, RowFor, FedRows, PeelCols, GenOf;
    d := new Decoder(ag);
    FeedOne(d, x);
    FeedOne(d, y);
    OnePeeled(d.peel);
  }

  method FeedOne(d: Decoder, x: Block)
    requires d.Feeding() && d.rowCount < d.ag.pr.n == 2
    modifies d, d.peel
    ensures d.Feeding() && d.ids == old(d.ids) + [0] && d.inputs == old(d.inputs) + [x]
  {
    hide Params.Valid, IsField, Trim, RowOk, Peeler.Idle, RowFor, FedRows, PeelCols, GenOf;
    RefsShortAll(d.peel);
    var status := d.DecodeFeed(0, x);
  }

  lemma RefsShortAll(peel: Peeler)
    requires peel.Idle()
    ensures |peel.refs| == peel.pr.n && forall c :: 0 <= c < |peel.refs| ==> |peel.refs[c]| <= |peel.colsOf|
  {
    hide Lists, ListsOk, MarksOk, PeeledOk, DeferredOk, CountersBut;
    forall c | 0 <= c < |peel.refs| ensures |peel.refs[c]| <= |peel.colsOf| {
      RefsShort(peel, c);
    }
  }

  /** With two blocks every row has one column, and the first is peeled at once. */
  lemma OnePeeled(peel: Peeler)
    requires peel.Idle() && peel.pr.n == 2 && peel.deferCols == [] && |peel.colsOf| > 0
    ensures peel.order != []
  {
    hide RefsOk, PeeledOk, Chain, Distinct, IsPrime, Recalled;
    var s, g := peel.View(), peel.rows[0].gen;
    var c := g.x0;
    assert PeelCols(peel.pr, g) == [c];
    assert ColSet(peel.pr, g) == {c} == s.colsOf[0];
    if Live(s, 0) {
      assert RowCounter(s, 0, true, {});
      SubsetSize(s.unvisited[0], {c});
    } else if 0 in s.deferRows {
      var i :| 0 <= i < |s.deferRows| && s.deferRows[i] == 0;
      assert AllMarked(s.cols, s.colsOf[0]) && c in s.colsOf[0];
      assert c in s.solved;
    }
  }

  /** Block 0 twice never determines a message of two blocks, equal contents or not. */
  method SameIdTwice(ag: Agreement, x: Block, y: Block, workspace: seq<Block>)
    requires ag.Valid() && ag.pr.n == 2 && |workspace| == ag.pr.n + ag.pr.M() + 1
    ensures !Determined(ag, [0, 0], [x, y])
  {
    hide Params.Valid, IsField, RowOk, Peeler.Idle, Spent, FedRows, Unique, Undetermined, GensOf, Determined,
         RetryFails, OutcomeOk;
    var other := x[0 := if x[0] == ZERO then ONE else ZERO];
    var d := FeedTwice(ag, x, other);
    assert other[0] != x[0];
    Contradictory(ag, 0, x, other);
    assert 1 !in d.ids;
    var status := d.DecodeSolve(workspace);
    UndeterminedOther(ag.pr, ag.f, ag.seeds, d.outcome, d.inputs, [x, y], CAT_MAX_EXTRA_ROWS);
    NotDetermined(ag, d.outcome, [0, 0], [x, y]);
  }

  /** A message of two blocks, of which block 0 comes twice. The solve asks for more; block 1, when it comes, is
      dropped; and the next solve, from which a column is lost, succeeds exactly when what is left of the matrix is not
      singular. */
  method LosingRun(ag: Agreement, x: Block, y: Block, z: Block, workspace: seq<Block>)
    returns (d: Decoder, first: Status, second: Status)
    requires ag.Valid() && ag.pr.n == 2 && |workspace| == ag.pr.n + ag.pr.M() + 1
    ensures fresh(d) && d.ag == ag && d.ids == [0, 0] && d.inputs == [x, y] && d.rowCount == 2
    ensures first == NeedMore && !Determined(ag, [0, 0], [x, y])
    ensures OutcomeOk(ag.pr, d.outcome) && d.outcome.gens == [GenOf(ag, 0), GenOf(ag, 0)] && d.outcome.order != []
    ensures d.outcome.deferCols != [] && d.peel.deferCount == 0
    ensures second != BadPeelSeed
    ensures second == NeedMore <==> RetryFails(ag.pr, ag.f, ag.seeds, d.outcome, CAT_MAX_EXTRA_ROWS)
  {
    hide Params.Valid, IsField, RowOk, Peeler.Idle, Spent, FedRows, Unique, Undetermined, Determined, OutcomeOk,
         PeelCols, RowFor, RetryFails, PeeledAnswer;
    SameIdTwice(ag, x, y, workspace);
    d := FeedTwice(ag, x, y);
    assert 1 !in d.ids;
    first := d.DecodeSolve(workspace);
    var status := d.DecodeFeed(1, z);
    assert d.outcome.gens == [GenOf(ag, 0), GenOf(ag, 0)];
    FewDeferred(d.peel, d.outcome, d.inputs);
    TwinsDefer(ag.pr, d.outcome, 0, 1);
    NotIdle(d);
    second := d.DecodeSolve(workspace);
  }

  lemma FewDeferred(peel: Peeler, oc: Outcome, inputs: seq<Block>)
    requires Spent(peel, oc, inputs)
    ensures OutcomeOk(peel.pr, oc) && |oc.deferCols| <= peel.pr.n
  {
    hide RowOk, RowVec, Lowest, IsPrime, Wired, Leftover;
    var elems := set c | c in oc.deferCols;
    forall i, j | 0 <= i < j < |oc.deferCols| ensures oc.deferCols[i] != oc.deferCols[j] {
      assert (oc.solved + oc.deferCols)[|oc.solved| + i] != (oc.solved + oc.deferCols)[|oc.solved| + j];
    }
    DistinctSize(oc.deferCols, elems);
    SubsetSize(elems, Below(peel.pr.n));
  }

  /** A decoder that has deferred a column is no longer being fed. */
  lemma NotIdle(d: Decoder)
    requires d.Stalled() && d.outcome.deferCols != []
    ensures !d.Feeding()
  {
    hide RowOk, RowVec, Lowest, IsPrime, Chain, RefersTo, Undetermined, GensOf, OutcomeOk, FedRows, Recalled;
    assert d.peel.cols[d.outcome.deferCols[0]].mark == Deferred;
  }
}
