/** Rows summed column by column: Substitute, and the row regeneration of Encode and ReconstructOutput
    (src/fec/Wirehair.cpp). */
module RowSums {
  import opened ColumnIterator
  import opened CheckMatrix
  import opened Blocks
  import opened Compression
  import opened PeelOutcome
  import opened Compressing

  /** The first k peel columns of a row other than skip, and its first m mix columns. */
  ghost function RowPart(pr: Params, g: RowGen, skip: nat, k: nat, m: nat): (v: Bits)
    requires RowOk(pr, g) && k <= g.weight && m <= 3
    ensures |v| == pr.n + pr.M()
  {
    var all, mix := PeelCols(pr, g)[..k], MixCols(pr, g)[..m];
    seq(pr.n + pr.M(), c requires 0 <= c < pr.n + pr.M() => if c < pr.n then c in all && c != skip else c - pr.n in mix)
  }

  /** The sum of that part over the current blocks. */
  ghost function PartSum(pr: Params, g: RowGen, skip: nat, k: nat, m: nat, xs: seq<Block>): Block
    requires RowOk(pr, g) && k <= g.weight && m <= 3 && |xs| >= pr.n + pr.M()
  {
    Dot(RowPart(pr, g, skip, k, m), xs, pr.n + pr.M())
  }

  lemma PartNone(pr: Params, g: RowGen, skip: nat, xs: seq<Block>)
    requires RowOk(pr, g) && |xs| >= pr.n + pr.M()
    ensures PartSum(pr, g, skip, 0, 0, xs) == Zero()
  {
    hide PeelCols, MixCols, Add;
    DotNone(RowPart(pr, g, skip, 0, 0), xs, pr.n + pr.M());
  }

  lemma PartPeel(pr: Params, g: RowGen, skip: nat, k: nat, m: nat, xs: seq<Block>)
    requires pr.Valid() && RowOk(pr, g) && k < g.weight && m <= 3 && |xs| >= pr.n + pr.M()
    ensures PeelCols(pr, g)[k] < pr.n
    ensures PartSum(pr, g, skip, k + 1, m, xs) ==
            if PeelCols(pr, g)[k] == skip then PartSum(pr, g, skip, k, m, xs)
            else Add(PartSum(pr, g, skip, k, m, xs), xs[PeelCols(pr, g)[k]])
  {
    hide PeelCols, MixCols, Add, Params.Valid, RowOk, Dot;
    ColsDistinct(pr, g);
    var all, x := PeelCols(pr, g), PeelCols(pr, g)[k];
    assert all[..k + 1] == all[..k] + [x];
    var v, v' := RowPart(pr, g, skip, k, m), RowPart(pr, g, skip, k + 1, m);
    if x == skip {
      assert v' == v;
    } else {
      assert v' == v[x := !v[x]];
      DotToggle(v, x, xs, pr.n + pr.M());
    }
  }

  lemma PartMix(pr: Params, g: RowGen, skip: nat, k: nat, m: nat, xs: seq<Block>)
    requires pr.Valid() && RowOk(pr, g) && k <= g.weight && m < 3 && |xs| >= pr.n + pr.M()
    ensures MixCols(pr, g)[m] < pr.M()
    ensures PartSum(pr, g, skip, k, m + 1, xs) == Add(PartSum(pr, g, skip, k, m, xs), xs[pr.n + MixCols(pr, g)[m]])
  {
    hide PeelCols, MixCols, Add, Params.Valid, RowOk, Dot;
    ColsDistinct(pr, g);
    var all, x := MixCols(pr, g), MixCols(pr, g)[m];
    assert all[..m + 1] == all[..m] + [x];
    var v, v' := RowPart(pr, g, skip, k, m), RowPart(pr, g, skip, k, m + 1);
    assert v' == v[pr.n + x := !v[pr.n + x]];
    DotToggle(v, pr.n + x, xs, pr.n + pr.M());
  }

  /** The whole row, but for one column if that is skipped. */
  lemma PartAll(pr: Params, g: RowGen, skip: nat)
    requires RowOk(pr, g) && skip <= pr.n
    ensures var v, w := RowVec(pr, g), RowPart(pr, g, skip, g.weight, 3);
            w == if skip < pr.n && v[skip] then v[skip := false] else v
  {
    hide PeelCols, MixCols;
    assert PeelCols(pr, g)[..g.weight] == PeelCols(pr, g) && MixCols(pr, g)[..3] == MixCols(pr, g);
  }

  /** A row regenerated from the recovery blocks: the sum of its peel columns and its three mix columns. */
  method RegenerateRow(pr: Params, g: RowGen, recovery: seq<Block>) returns (block: Block)
    requires pr.Valid() && RowOk(pr, g) && |recovery| >= pr.n + pr.M()
    ensures block == Dot(RowVec(pr, g), recovery, pr.n + pr.M())
  {
    hide PeelCols, MixCols, Add, Params.Valid, PartSum, RowPart, RowVec, NextColumn, Dot, IsPrime;
    ghost var all, mix, none := PeelCols(pr, g), MixCols(pr, g), pr.n;
    var weight, x := g.weight, g.x0;
    PartNone(pr, g, none, recovery);
    PartPeel(pr, g, none, 0, 0, recovery);
    AddZero(recovery[x]);
    block := recovery[x];
    ghost var k := 1;
    if weight > 1 {
      weight := weight - 1;
      PeelColsStep(pr, g, 0);
      x := NextColumn(x, g.a, pr.n, pr.p);
      PartPeel(pr, g, none, 1, 0, recovery);
      block := Add(block, recovery[x]);
      k := 2;
      weight := weight - 1;
      while weight > 0
        invariant weight == g.weight - k && 2 <= k <= g.weight && x == all[k - 1]
        invariant block == PartSum(pr, g, none, k, 0, recovery)
      {
        PeelColsStep(pr, g, k - 1);
        x := NextColumn(x, g.a, pr.n, pr.p);
        PartPeel(pr, g, none, k, 0, recovery);
        block := Add(block, recovery[x]);
        k := k + 1;
        weight := weight - 1;
      }
    }
    block := AddMix(pr, g, recovery, block, none);
    PartAll(pr, g, none);
    PartFull(pr, g, recovery);
  }

  lemma PartFull(pr: Params, g: RowGen, recovery: seq<Block>)
    requires RowOk(pr, g) && |recovery| >= pr.n + pr.M() && RowPart(pr, g, pr.n, g.weight, 3) == RowVec(pr, g)
    ensures PartSum(pr, g, pr.n, g.weight, 3, recovery) == Dot(RowVec(pr, g), recovery, pr.n + pr.M())
  {
    hide RowPart, RowVec, Dot, RowOk, Params.Valid;
  }

  /** Adds the three mix columns of a row. */
  method AddMix(pr: Params, g: RowGen, recovery: seq<Block>, block0: Block, ghost skip: nat) returns (block: Block)
    requires pr.Valid() && RowOk(pr, g) && |recovery| >= pr.n + pr.M()
    requires block0 == PartSum(pr, g, skip, g.weight, 0, recovery)
    ensures block == PartSum(pr, g, skip, g.weight, 3, recovery)
  {
    hide PeelCols, MixCols, Add, Params.Valid, PartSum, NextColumn, IsPrime;
    MixSteps(pr, g);
    PartMix(pr, g, skip, g.weight, 0, recovery);
    PartMix(pr, g, skip, g.weight, 1, recovery);
    PartMix(pr, g, skip, g.weight, 2, recovery);
    var x := g.mixX0;
    block := Add(block0, recovery[pr.n + x]);
    x := NextColumn(x, g.mixA, pr.M(), pr.q);
    block := Add(block, recovery[pr.n + x]);
    x := NextColumn(x, g.mixA, pr.M(), pr.q);
    block := Add(block, recovery[pr.n + x]);
  }

  /** The block of the column a peeled row solves: its input plus every other column it has. */
  method SolvedBlock(pr: Params, g: RowGen, input: Block, dest: nat, recovery: seq<Block>) returns (block: Block)
    requires pr.Valid() && RowOk(pr, g) && |recovery| >= pr.n + pr.M() && dest in PeelCols(pr, g)
    ensures block == Add(input, PartSum(pr, g, dest, g.weight, 3, recovery))
  {
    hide PeelCols, MixCols, Add, Params.Valid, PartSum, NextColumn, IsPrime;
    ghost var all := PeelCols(pr, g);
    block := StartSolved(pr, g, input, dest, recovery);
    var weight := g.weight;
    ghost var k := 0;
    if weight >= 2 {
      weight := weight - 1;
      var column0 := g.x0;
      PeelColsStep(pr, g, 0);
      var x := NextColumn(column0, g.a, pr.n, pr.p);
      PartPeel(pr, g, dest, 0, 3, recovery);
      PartPeel(pr, g, dest, 1, 3, recovery);
      FirstTwoDiffer(pr, g);
      ghost var s0 := PartSum(pr, g, dest, 0, 3, recovery);
      AddAssoc(input, s0, recovery[column0]);
      AddAssoc(input, s0, recovery[x]);
      AddAssoc(input, Add(s0, recovery[column0]), recovery[x]);
      if column0 != dest {
        if x != dest {
          block := Add(Add(block, recovery[column0]), recovery[x]);
        } else {
          block := Add(block, recovery[column0]);
        }
      } else {
        block := Add(block, recovery[x]);
      }
      k := 2;
      weight := weight - 1;
      while weight > 0
        invariant weight == g.weight - k && 2 <= k <= g.weight && x == all[k - 1]
        invariant block == Add(input, PartSum(pr, g, dest, k, 3, recovery))
      {
        PeelColsStep(pr, g, k - 1);
        x := NextColumn(x, g.a, pr.n, pr.p);
        PartPeel(pr, g, dest, k, 3, recovery);
        AddAssoc(input, PartSum(pr, g, dest, k, 3, recovery), recovery[x]);
        if x != dest {
          block := Add(block, recovery[x]);
        }
        k := k + 1;
        weight := weight - 1;
      }
    } else {
      OnlyColumn(pr, g, dest);
      PartPeel(pr, g, dest, 0, 3, recovery);
    }
  }

  lemma FirstTwoDiffer(pr: Params, g: RowGen)
    requires pr.Valid() && RowOk(pr, g) && g.weight >= 2
    ensures PeelCols(pr, g)[0] == g.x0 && PeelCols(pr, g)[1] != g.x0
  {
    hide IsPrime, Params.Valid;
    ColsDistinct(pr, g);
  }

  lemma OnlyColumn(pr: Params, g: RowGen, dest: nat)
    requires RowOk(pr, g) && g.weight < 2 && dest in PeelCols(pr, g)
    ensures g.weight == 1 && PeelCols(pr, g)[0] == dest
  {}

  /** Input and mix columns, before any peel column. */
  method StartSolved(pr: Params, g: RowGen, input: Block, ghost dest: nat, recovery: seq<Block>) returns (block: Block)
    requires pr.Valid() && RowOk(pr, g) && |recovery| >= pr.n + pr.M()
    ensures block == Add(input, PartSum(pr, g, dest, 0, 3, recovery))
  {
    hide PeelCols, MixCols, Add, Params.Valid, PartSum, NextColumn, IsPrime;
    MixSteps(pr, g);
    PartNone(pr, g, dest, recovery);
    PartMix(pr, g, dest, 0, 0, recovery);
    PartMix(pr, g, dest, 0, 1, recovery);
    PartMix(pr, g, dest, 0, 2, recovery);
    var x := g.mixX0;
    ghost var x0 := recovery[pr.n + x];
    AddZero(x0);
    AddComm(input, x0);
    block := Add(recovery[pr.n + x], input);
    x := NextColumn(x, g.mixA, pr.M(), pr.q);
    var y := NextColumn(x, g.mixA, pr.M(), pr.q);
    AddAssoc(input, x0, recovery[pr.n + x]);
    AddAssoc(input, Add(x0, recovery[pr.n + x]), recovery[pr.n + y]);
    block := Add(Add(block, recovery[pr.n + x]), recovery[pr.n + y]);
  }

  // ---- Substitute ----

  /** The first i peeled rows sum to their inputs. */
  ghost predicate RowsHold(gr: Graph, xs: seq<Block>, i: nat)
    requires GraphOk(gr) && |xs| >= gr.width && i <= |gr.order|
  {
    forall j :: 0 <= j < i ==> Dot(gr.vecs[gr.order[j]], xs, gr.width) == gr.inputs[gr.order[j]]
  }

  /** Solving column solved[i] makes its row hold and leaves the rows before it alone. */
  lemma {:induction false} SolveNext(gr: Graph, xs: seq<Block>, i: nat, value: Block)
    requires GraphOk(gr) && Triangular(gr) && |xs| >= gr.width && i < |gr.order| && RowsHold(gr, xs, i)
    requires var v, c := gr.vecs[gr.order[i]], gr.solved[i];
             value == Add(gr.inputs[gr.order[i]], Dot(v[c := false], xs, gr.width))
    ensures RowsHold(gr, xs[gr.solved[i] := value], i + 1)
  {
    hide Add;
    var c := gr.solved[i];
    var xs' := xs[c := value];
    var v := gr.vecs[gr.order[i]];
    assert v[c];
    var rest := v[c := false];
    DotToggle(rest, c, xs', gr.width);
    assert rest[c := !rest[c]] == v;
    DotSame(rest, rest, xs', xs, gr.width);
    var sum := Dot(rest, xs, gr.width);
    AddComm(gr.inputs[gr.order[i]], sum);
    AddCancel(sum, gr.inputs[gr.order[i]]);
    forall j | 0 <= j < i ensures Dot(gr.vecs[gr.order[j]], xs', gr.width) == gr.inputs[gr.order[j]] {
      assert !gr.vecs[gr.order[j]][c];
      DotSame(gr.vecs[gr.order[j]], gr.vecs[gr.order[j]], xs', xs, gr.width);
    }
  }

  /** Regenerates one peeled column from its row; the row after it. */
  method SubstituteOne(comp: Compressor, r: nat, ghost gr: Graph, ghost deferRows: seq<nat>, ghost deferCols: seq<nat>,
                       ghost i: nat)
    returns (next: nat)
    requires comp.Joined(gr, deferRows, deferCols) && Triangular(gr)
    requires comp.inputs == gr.inputs && |comp.recovery| >= gr.width
    requires GraphOk(gr) && i < |gr.order| && r == gr.order[i] && RowsHold(gr, comp.recovery, i)
    modifies comp`recovery
    ensures comp.Joined(gr, deferRows, deferCols) && |comp.recovery| == old(|comp.recovery|)
    ensures RowsHold(gr, comp.recovery, i + 1)
    ensures forall x :: 0 <= x < |comp.recovery| && x !in gr.solved ==> comp.recovery[x] == old(comp.recovery)[x]
    ensures next == if i + 1 < |gr.order| then gr.order[i + 1] else LIST_TERM
  {
    hide Wired, RowOk, RowVec, Params.Valid, PeelCols, Add, Triangular, RowsHold, MixMap;
    WalkAt(comp, gr, deferRows, deferCols, i);
    var dest := comp.peel.rows[r].slot;
    var block := SolvedBlock(comp.pr, comp.peel.rows[r].gen, comp.inputs[r], dest, comp.recovery);
    SkipIs(comp, gr, deferRows, deferCols, i);
    SolveNext(gr, comp.recovery, i, block);
    assert dest in gr.solved;
    comp.recovery := comp.recovery[dest := block];
    next := comp.peel.rows[r].next;
  }

  /** Regenerates every peeled column in the order it was peeled: afterwards every peeled row holds. */
  method Substitute(comp: Compressor, ghost gr: Graph, ghost deferRows: seq<nat>, ghost deferCols: seq<nat>)
    requires comp.Joined(gr, deferRows, deferCols) && Triangular(gr)
    requires comp.inputs == gr.inputs && |comp.recovery| >= gr.width
    modifies comp`recovery
    ensures |comp.recovery| == old(|comp.recovery|) && RowsHold(gr, comp.recovery, |gr.order|)
    ensures forall x :: 0 <= x < |comp.recovery| && x !in gr.solved ==> comp.recovery[x] == old(comp.recovery)[x]
  {
    hide Compressor.Joined, GraphOk, Triangular, RowsHold;
    ghost var i := 0;
    WalkAt(comp, gr, deferRows, deferCols, 0);
    var r := comp.peel.headRows;
    NoneHold(gr, comp.recovery);
    while r != LIST_TERM
      invariant comp.Joined(gr, deferRows, deferCols)
      invariant i <= |gr.order| && r == (if i < |gr.order| then gr.order[i] else LIST_TERM)
      invariant |comp.recovery| == old(|comp.recovery|) && RowsHold(gr, comp.recovery, i)
      invariant forall x :: 0 <= x < |comp.recovery| && x !in gr.solved ==> comp.recovery[x] == old(comp.recovery)[x]
      decreases |gr.order| - i
    {
      r := SubstituteOne(comp, r, gr, deferRows, deferCols, i);
      i := i + 1;
    }
    if i < |gr.order| {
      WalkAt(comp, gr, deferRows, deferCols, i);
    }
  }

  lemma NoneHold(gr: Graph, xs: seq<Block>)
    requires GraphOk(gr) && |xs| >= gr.width
    ensures RowsHold(gr, xs, 0)
  {}

  /** What the walk over the peeled rows meets at position i. */
  lemma WalkAt(comp: Compressor, gr: Graph, deferRows: seq<nat>, deferCols: seq<nat>, i: nat)
    requires comp.Joined(gr, deferRows, deferCols) && Triangular(gr)
    ensures GraphOk(gr) && comp.peel.headRows == if gr.order == [] then LIST_TERM else gr.order[0]
    ensures i < |gr.order| ==>
      && gr.order[i] < comp.pr.n && gr.order[i] != LIST_TERM && gr.solved[i] < gr.width
      && comp.peel.rows[gr.order[i]].slot == gr.solved[i] < comp.pr.n && RowOk(comp.pr, comp.peel.rows[gr.order[i]].gen)
      && gr.solved[i] in PeelCols(comp.pr, comp.peel.rows[gr.order[i]].gen)
      && gr.vecs[gr.order[i]] == RowVec(comp.pr, comp.peel.rows[gr.order[i]].gen)
      && comp.peel.rows[gr.order[i]].next == if i + 1 < |gr.order| then gr.order[i + 1] else LIST_TERM
  {
    hide Wired, RowOk, Params.Valid, PeelCols, MixCols, MixMap;
    var peel := comp.peel;
    ReferenceAt(gr, deferRows, deferCols, peel.rows, peel.cols, peel.refs, peel.headRows, peel.deferHeadRows,
                peel.deferHeadColumns, i);
    if i < |gr.order| {
      assert gr.vecs[gr.order[i]][gr.solved[i]];
    }
  }

  lemma SkipIs(comp: Compressor, gr: Graph, deferRows: seq<nat>, deferCols: seq<nat>, i: nat)
    requires comp.Joined(gr, deferRows, deferCols) && Triangular(gr) && i < |gr.order| && |comp.recovery| >= gr.width
    requires GraphOk(gr) && gr.order[i] < |comp.peel.rows| && RowOk(comp.pr, comp.peel.rows[gr.order[i]].gen)
    ensures var g := comp.peel.rows[gr.order[i]].gen;
            PartSum(comp.pr, g, gr.solved[i], g.weight, 3, comp.recovery) ==
            Dot(gr.vecs[gr.order[i]][gr.solved[i] := false], comp.recovery, gr.width)
  {
    hide Wired, RowOk, Params.Valid, PeelCols, MixCols, MixMap, Dot, RowPart, RowVec;
    WalkAt(comp, gr, deferRows, deferCols, i);
    var g, v := comp.peel.rows[gr.order[i]].gen, gr.vecs[gr.order[i]];
    PartAll(comp.pr, g, gr.solved[i]);
    assert v[gr.solved[i]];
  }
}
