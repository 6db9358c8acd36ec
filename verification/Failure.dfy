/** When the solver asks for more blocks, the blocks it has do not determine the message (src/fec/Wirehair.cpp). */
module Failure {
  import opened ColumnIterator
  import opened CheckMatrix
  import opened Blocks
  import opened Compression
  import opened PeelOutcome
  import opened GaloisField
  import opened Elimination
  import opened Solving
  import opened Triangle
  import opened CheckSystem
  import opened Recovery

  ghost function AddVec(xs: seq<Block>, ys: seq<Block>): (zs: seq<Block>)
    requires |xs| == |ys|
    ensures |zs| == |xs| && forall i :: 0 <= i < |zs| ==> zs[i] == Add(xs[i], ys[i])
    decreases |xs|
  {
    if xs == [] then [] else AddVec(xs[..|xs| - 1], ys[..|ys| - 1]) + [Add(xs[|xs| - 1], ys[|ys| - 1])]
  }

  lemma {:induction false} RowDotVec(f: Tables, a: Row, xs: seq<Block>, ys: seq<Block>, k: nat)
    requires IsField(f) && |xs| == |ys| && k <= |a| && k <= |xs|
    ensures RowDot(f, a, AddVec(xs, ys), k) == Add(RowDot(f, a, xs, k), RowDot(f, a, ys, k))
  {
    hide Add, Scale, IsField, AddVec;
    if k == 0 {
      AddZero(Zero());
    } else {
      RowDotVec(f, a, xs, ys, k - 1);
      ScaleAdd(f, a[k - 1], xs[k - 1], ys[k - 1]);
      AddSwap(RowDot(f, a, xs, k - 1), RowDot(f, a, ys, k - 1), Scale(f, a[k - 1], xs[k - 1]),
              Scale(f, a[k - 1], ys[k - 1]));
    }
  }

  /** The blocks of all columns, given those of the elimination columns: solved columns as their compressed rows say. */
  ghost function Extend(gr: Graph, ge: seq<Block>, k: nat): (xs: seq<Block>)
    requires GraphOk(gr) && Partitioned(gr) && |ge| == |gr.colMap| && k <= gr.width
    ensures |xs| == k
  {
    if k == 0 then [] else Extend(gr, ge, k - 1) + [ColumnBlock(gr, ge, k - 1)]
  }

  ghost function ColumnBlock(gr: Graph, ge: seq<Block>, c: nat): Block
    requires GraphOk(gr) && Partitioned(gr) && |ge| == |gr.colMap| && c < gr.width
  {
    if c in gr.solved then
      (var j :| 0 <= j < |gr.solved| && gr.solved[j] == c; Add(Temp(gr, j), Dot(CompressRow(gr, j), ge, |ge|)))
    else
      (assert c in gr.solved + gr.colMap;
       var g :| 0 <= g < |gr.colMap| && gr.colMap[g] == c; ge[g])
  }

  lemma {:induction false} ExtendAt(gr: Graph, ge: seq<Block>, k: nat, c: nat)
    requires GraphOk(gr) && Partitioned(gr) && |ge| == |gr.colMap| && c < k <= gr.width
    ensures Extend(gr, ge, k)[c] == ColumnBlock(gr, ge, c)
  {
    hide ColumnBlock, Partitioned;
    if c < k - 1 {
      ExtendAt(gr, ge, k - 1, c);
    }
  }

  /** Elimination columns keep their blocks. */
  lemma ExtendPulls(gr: Graph, ge: seq<Block>)
    requires GraphOk(gr) && Partitioned(gr) && |ge| == |gr.colMap|
    ensures PullBlocks(Extend(gr, ge, gr.width), gr.colMap) == ge
  {
    hide Temp, CompressRow, Add, Dot;
    var all := gr.solved + gr.colMap;
    forall g | 0 <= g < |gr.colMap| ensures Extend(gr, ge, gr.width)[gr.colMap[g]] == ge[g] {
      ExtendAt(gr, ge, gr.width, gr.colMap[g]);
      assert all[|gr.solved| + g] == gr.colMap[g];
      forall j | 0 <= j < |gr.solved| ensures gr.solved[j] != gr.colMap[g] {
        assert all[j] == gr.solved[j];
      }
      forall g' | 0 <= g' < |gr.colMap| && g' != g ensures gr.colMap[g'] != gr.colMap[g] {
        assert all[|gr.solved| + g'] == gr.colMap[g'];
      }
    }
  }

  lemma ExtendSolved(gr: Graph, ge: seq<Block>, j: nat)
    requires GraphOk(gr) && Partitioned(gr) && |ge| == |gr.colMap| && j < |gr.order|
    ensures Extend(gr, ge, gr.width)[gr.solved[j]] == Add(Temp(gr, j), Dot(CompressRow(gr, j), ge, |ge|))
  {
    hide Temp, CompressRow, Add, Dot;
    var all := gr.solved + gr.colMap;
    ExtendAt(gr, ge, gr.width, gr.solved[j]);
    assert all[j] == gr.solved[j];
    forall j' | 0 <= j' < |gr.solved| && j' != j ensures gr.solved[j'] != gr.solved[j] {
      assert all[j'] == gr.solved[j'];
    }
  }

  /** Any blocks for the elimination columns extend to blocks that satisfy every peeled row. */
  lemma {:induction false} ExtendHolds(gr: Graph, ge: seq<Block>)
    requires GraphOk(gr) && Partitioned(gr) && Triangular(gr) && |ge| == |gr.colMap|
    ensures PeeledHold(gr, Extend(gr, ge, gr.width))
  {
    hide Temp, CompressRow, Add, Dot, Extend, Partitioned, Triangular, Reduce, ReduceValue;
    var xs := Extend(gr, ge, gr.width);
    ExtendPulls(gr, ge);
    forall j | 0 <= j < |gr.order| ensures Dot(gr.vecs[gr.order[j]], xs, gr.width) == gr.inputs[gr.order[j]] {
      ExtendRow(gr, ge, j);
    }
  }

  lemma {:induction false} ExtendRow(gr: Graph, ge: seq<Block>, j: nat)
    requires GraphOk(gr) && Partitioned(gr) && Triangular(gr) && |ge| == |gr.colMap| && j < |gr.order|
    ensures Dot(gr.vecs[gr.order[j]], Extend(gr, ge, gr.width), gr.width) == gr.inputs[gr.order[j]]
  {
    hide Add, Dot, Extend, Partitioned, Triangular, Reduce, ReduceValue, Gather, Pull;
    var xs := Extend(gr, ge, gr.width);
    ExtendPulls(gr, ge);
    forall i | 0 <= i < |gr.order|
      ensures xs[gr.solved[i]] == Add(Temp(gr, i), Dot(CompressRow(gr, i), PullBlocks(xs, gr.colMap), |gr.colMap|))
    {
      ExtendSolved(gr, ge, i);
    }
    var v, rhs := gr.vecs[gr.order[j]], gr.inputs[gr.order[j]];
    GatherReduced(gr, v, rhs, xs, j);
    SplitDot(gr, v, xs);
    GatherTail(gr, v, xs, j, |gr.solved|);
    var sum, base, x := Gather(v, xs, gr.solved, j), Dot(Pull(v, gr.colMap), ge, |ge|), xs[gr.solved[j]];
    // rhs + (sum + base) == x, and the row sums to (sum + x) + base
    Shuffle(Zero(), sum, base, x);
    AddZero(Add(Add(sum, x), base));
    AddZero(Add(sum, base));
    AddComm(rhs, Add(sum, base));
    AddMove(Add(sum, base), x, rhs);
  }

  /** A vector the elimination rows annihilate turns one solution of the check matrix into another. */
  lemma {:induction false} NotUnique(pr: Params, f: Tables, seeds: Seeds, oc: Outcome, inputs: seq<Block>, extra: nat,
                                     xs: seq<Block>)
      returns (ys: seq<Block>)
    requires IsField(f) && OutcomeOk(pr, oc) && |inputs| == pr.n && |xs| == pr.n + pr.M()
    requires GraphOk(GraphOf(pr, oc, inputs)) && Satisfied(pr, f, seeds, oc.gens, inputs, xs)
    requires var a := GeMatrix(pr, seeds, GraphOf(pr, oc, inputs), oc.deferRows, extra);
             Rectangular(a, |ColMap(pr, oc)|) && Singular(f, a, |ColMap(pr, oc)|)
    ensures |ys| == |xs| && ys != xs && Satisfied(pr, f, seeds, oc.gens, inputs, ys)
  {
    hide IsField, OutcomeOk, GeValue, Satisfied, PeeledHold, Triangular, Partitioned, GraphOk, Params.Valid, Lowest,
         RowOk, RowVec, IsPrime, GeBits, GeHeavy, RowDot, Add, Extend, FullRows, Zero;
    var gr := GraphOf(pr, oc, inputs);
    OutcomeShape(pr, oc);
    GraphOfOk(pr, oc, inputs);
    var a, n := GeMatrix(pr, seeds, gr, oc.deferRows, extra), |gr.colMap|;
    var k, ks: seq<Block> :| 0 <= k < n && |ks| == n && ks[k] == Ones() && Annihilates(f, a, n, ks);
    SystemSplits(pr, f, seeds, oc, inputs, extra, xs);
    var ge := PullBlocks(xs, gr.colMap);
    var ge' := AddVec(ge, ks);
    ys := Extend(gr, ge', gr.width);
    ExtendPulls(gr, ge');
    ExtendHolds(gr, ge');
    forall r | 0 <= r < |a| ensures RowDot(f, a[r], ge', n) == GeValue(pr, seeds, gr, oc.deferRows, r) {
      RowDotVec(f, a[r], ge, ks, n);
      AddZero(RowDot(f, a[r], ge, n));
    }
    SystemSplits(pr, f, seeds, oc, inputs, extra, ys);
    OnesMoves(ge[k]);
    assert ge'[k] != ge[k];
  }

  lemma OnesMoves(x: Block)
    ensures Add(x, Ones()) != x
  {
    assert Add(x, Ones())[0] == Xor(x[0], ONE);
    assert Xor(x[0], ONE).b0 != x[0].b0;
  }
}
