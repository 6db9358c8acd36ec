/** The algebra of compression: eliminating the peeled columns from an equation (src/fec/Wirehair.cpp, part 2). */
module Compression {
  import opened ColumnIterator
  import opened Blocks

  /** A peeled check matrix. vecs[r] holds the coefficients of row r over all columns and inputs[r] its block;
      row order[j] solves column solved[j]; colMap lists the columns left for Gaussian elimination. */
  datatype Graph = Graph(width: nat, vecs: seq<Bits>, inputs: seq<Block>, order: seq<nat>, solved: seq<nat>,
                         colMap: seq<nat>)

  ghost predicate GraphOk(gr: Graph) {
    && |gr.vecs| == |gr.inputs| && |gr.order| == |gr.solved|
    && (forall r :: 0 <= r < |gr.vecs| ==> |gr.vecs[r]| == gr.width)
    && (forall j :: 0 <= j < |gr.order| ==> gr.order[j] < |gr.vecs| && gr.solved[j] < gr.width)
    && (forall g :: 0 <= g < |gr.colMap| ==> gr.colMap[g] < gr.width)
  }

  /** A peeled row has its own column and no column that is solved later. */
  ghost predicate Triangular(gr: Graph)
    requires GraphOk(gr)
  {
    forall i, j :: 0 <= j <= i < |gr.order| ==> (gr.vecs[gr.order[j]][gr.solved[i]] <==> i == j)
  }

  /** Every column is either solved by peeling or left for elimination, once. */
  ghost predicate Partitioned(gr: Graph) {
    && Distinct(gr.solved + gr.colMap)
    && forall c: nat :: c < gr.width ==> c in gr.solved + gr.colMap
  }

  // ---- Sums over a list of columns ----

  ghost function Gather(v: Bits, xs: seq<Block>, idx: seq<nat>, k: nat): Block
    requires |v| == |xs| && k <= |idx| && forall i :: 0 <= i < |idx| ==> idx[i] < |v|
  {
    if k == 0 then Zero() else Add(Gather(v, xs, idx, k - 1), Pick(v[idx[k - 1]], xs[idx[k - 1]]))
  }

  ghost function Cleared(v: Bits, idx: seq<nat>, k: nat): (r: Bits)
    requires k <= |idx|
    ensures |r| == |v|
  {
    seq(|v|, c requires 0 <= c < |v| => v[c] && c !in idx[..k])
  }

  lemma {:induction false} ClearDot(v: Bits, xs: seq<Block>, idx: seq<nat>, k: nat)
    requires |v| == |xs| && k <= |idx| && Distinct(idx) && forall i :: 0 <= i < |idx| ==> idx[i] < |v|
    ensures Dot(v, xs, |v|) == Add(Gather(v, xs, idx, k), Dot(Cleared(v, idx, k), xs, |v|))
  {
    hide Add;
    if k == 0 {
      assert Cleared(v, idx, 0) == v;
      AddZero(Dot(v, xs, |v|));
    } else {
      ClearDot(v, xs, idx, k - 1);
      var c := idx[k - 1];
      var w, w' := Cleared(v, idx, k - 1), Cleared(v, idx, k);
      assert idx[..k] == idx[..k - 1] + [c];
      assert c !in idx[..k - 1];
      var sum := Gather(v, xs, idx, k - 1);
      if v[c] {
        assert w' == w[c := !w[c]];
        DotToggle(w', c, xs, |v|);
        assert w == w'[c := !w'[c]];
        AddComm(Dot(w', xs, |v|), xs[c]);
        AddAssoc(sum, xs[c], Dot(w', xs, |v|));
      } else {
        assert w' == w;
        AddZero(sum);
      }
    }
  }

  lemma {:induction false} GatherAppend(v: Bits, xs: seq<Block>, a: seq<nat>, b: seq<nat>, k: nat)
    requires |v| == |xs| && k <= |b|
    requires forall i :: 0 <= i < |a + b| ==> (a + b)[i] < |v|
    requires forall i :: 0 <= i < |a| ==> a[i] < |v|
    requires forall i :: 0 <= i < |b| ==> b[i] < |v|
    ensures Gather(v, xs, a + b, |a| + k) == Add(Gather(v, xs, a, |a|), Gather(v, xs, b, k))
  {
    hide Add;
    if k == 0 {
      GatherPrefix(v, xs, a, b, |a|);
      AddZero(Gather(v, xs, a, |a|));
    } else {
      GatherAppend(v, xs, a, b, k - 1);
      AddAssoc(Gather(v, xs, a, |a|), Gather(v, xs, b, k - 1), Pick(v[b[k - 1]], xs[b[k - 1]]));
    }
  }

  lemma {:induction false} GatherPrefix(v: Bits, xs: seq<Block>, a: seq<nat>, b: seq<nat>, k: nat)
    requires |v| == |xs| && k <= |a|
    requires forall i :: 0 <= i < |a + b| ==> (a + b)[i] < |v|
    requires forall i :: 0 <= i < |a| ==> a[i] < |v|
    ensures Gather(v, xs, a + b, k) == Gather(v, xs, a, k)
  {
    hide Add;
    if k > 0 {
      GatherPrefix(v, xs, a, b, k - 1);
    }
  }

  /** The entries of v at the columns of a map. */
  function Pull(v: Bits, map': seq<nat>): (r: Bits)
    requires forall i :: 0 <= i < |map'| ==> map'[i] < |v|
    ensures |r| == |map'|
  {
    seq(|map'|, i requires 0 <= i < |map'| => v[map'[i]])
  }

  ghost function PullBlocks(xs: seq<Block>, map': seq<nat>): (r: seq<Block>)
    requires forall i :: 0 <= i < |map'| ==> map'[i] < |xs|
    ensures |r| == |map'|
  {
    seq(|map'|, i requires 0 <= i < |map'| => xs[map'[i]])
  }

  lemma {:induction false} GatherPull(v: Bits, xs: seq<Block>, map': seq<nat>, k: nat)
    requires |v| == |xs| && k <= |map'| && forall i :: 0 <= i < |map'| ==> map'[i] < |v|
    ensures Gather(v, xs, map', k) == Dot(Pull(v, map'), PullBlocks(xs, map'), k)
  {
    hide Add;
    if k > 0 {
      GatherPull(v, xs, map', k - 1);
    }
  }

  /** An equation's sum splits into its peeled part and its elimination part. */
  lemma SplitDot(gr: Graph, v: Bits, xs: seq<Block>)
    requires GraphOk(gr) && Partitioned(gr) && |v| == |xs| == gr.width
    ensures Dot(v, xs, gr.width) ==
            Add(Gather(v, xs, gr.solved, |gr.solved|), Dot(Pull(v, gr.colMap), PullBlocks(xs, gr.colMap), |gr.colMap|))
  {
    hide Add;
    var idx := gr.solved + gr.colMap;
    assert forall i :: 0 <= i < |idx| ==> idx[i] < gr.width;
    ClearDot(v, xs, idx, |idx|);
    assert idx[..|idx|] == idx;
    DotNone(Cleared(v, idx, |idx|), xs, gr.width);
    AddZero(Gather(v, xs, idx, |idx|));
    GatherAppend(v, xs, gr.solved, gr.colMap, |gr.colMap|);
    GatherPull(v, xs, gr.colMap, |gr.colMap|);
  }

  // ---- Eliminating the first i peeled columns ----

  /** What is left of coefficients v over the elimination columns. */
  ghost function Reduce(gr: Graph, v: Bits, i: nat): (r: Bits)
    requires GraphOk(gr) && |v| == gr.width && i <= |gr.order|
    ensures |r| == |gr.colMap|
    decreases i
  {
    if i == 0 then Pull(v, gr.colMap)
    else XorBits(Reduce(gr, v, i - 1), PickBits(v[gr.solved[i - 1]], Reduce(gr, gr.vecs[gr.order[i - 1]], i - 1)))
  }

  /** What is added to the block of an equation with coefficients v. */
  ghost function ReduceValue(gr: Graph, v: Bits, rhs: Block, i: nat): Block
    requires GraphOk(gr) && |v| == gr.width && i <= |gr.order|
    decreases i, 0
  {
    if i == 0 then rhs
    else Add(ReduceValue(gr, v, rhs, i - 1), Pick(v[gr.solved[i - 1]], Temp(gr, i - 1)))
  }

  /** The Compression matrix row of the j-th peeled row: its solved column in terms of the elimination columns. */
  ghost function CompressRow(gr: Graph, j: nat): (r: Bits)
    requires GraphOk(gr) && j < |gr.order|
    ensures |r| == |gr.colMap|
  {
    Reduce(gr, gr.vecs[gr.order[j]], j)
  }

  /** The temporary block kept for the j-th peeled row's column. */
  ghost function Temp(gr: Graph, j: nat): Block
    requires GraphOk(gr) && j < |gr.order|
    decreases j, 1
  {
    ReduceValue(gr, gr.vecs[gr.order[j]], gr.inputs[gr.order[j]], j)
  }

  lemma {:induction false} ReduceXor(gr: Graph, v: Bits, w: Bits, i: nat)
    requires GraphOk(gr) && |v| == |w| == gr.width && i <= |gr.order|
    ensures Reduce(gr, XorBits(v, w), i) == XorBits(Reduce(gr, v, i), Reduce(gr, w, i))
  {
    if i == 0 {
      assert Pull(XorBits(v, w), gr.colMap) == XorBits(Pull(v, gr.colMap), Pull(w, gr.colMap));
    } else {
      ReduceXor(gr, v, w, i - 1);
      var c := gr.solved[i - 1];
      var row := Reduce(gr, gr.vecs[gr.order[i - 1]], i - 1);
      assert PickBits(v[c] != w[c], row) == XorBits(PickBits(v[c], row), PickBits(w[c], row));
      XorBitsSwap(Reduce(gr, v, i - 1), Reduce(gr, w, i - 1), PickBits(v[c], row), PickBits(w[c], row));
    }
  }

  lemma {:induction false} ReduceValueXor(gr: Graph, v: Bits, w: Bits, x: Block, y: Block, i: nat)
    requires GraphOk(gr) && |v| == |w| == gr.width && i <= |gr.order|
    ensures ReduceValue(gr, XorBits(v, w), Add(x, y), i) == Add(ReduceValue(gr, v, x, i), ReduceValue(gr, w, y, i))
  {
    hide Add;
    if i > 0 {
      ReduceValueXor(gr, v, w, x, y, i - 1);
      var c := gr.solved[i - 1];
      var t := Temp(gr, i - 1);
      PickXor(v[c], w[c], t);
      AddSwap(ReduceValue(gr, v, x, i - 1), ReduceValue(gr, w, y, i - 1), Pick(v[c], t), Pick(w[c], t));
    }
  }

  // ---- What the eliminated equations say ----

  /** xs satisfies the equations of the peeled rows. */
  ghost predicate PeeledHold(gr: Graph, xs: seq<Block>)
    requires GraphOk(gr) && |xs| == gr.width
  {
    forall j :: 0 <= j < |gr.order| ==> Dot(gr.vecs[gr.order[j]], xs, gr.width) == gr.inputs[gr.order[j]]
  }

  // The peeled part of v up to column i, with every solved column written out.
  lemma {:induction false} GatherReduced(gr: Graph, v: Bits, rhs: Block, xs: seq<Block>, i: nat)
    requires GraphOk(gr) && |v| == |xs| == gr.width && i <= |gr.order|
    requires forall j :: 0 <= j < i ==>
      xs[gr.solved[j]] == Add(Temp(gr, j), Dot(CompressRow(gr, j), PullBlocks(xs, gr.colMap), |gr.colMap|))
    ensures Add(rhs,
                Add(Gather(v, xs, gr.solved, i), Dot(Pull(v, gr.colMap), PullBlocks(xs, gr.colMap), |gr.colMap|))) ==
            Add(ReduceValue(gr, v, rhs, i), Dot(Reduce(gr, v, i), PullBlocks(xs, gr.colMap), |gr.colMap|))
    decreases i
  {
    hide Add;
    var ge, k := PullBlocks(xs, gr.colMap), |gr.colMap|;
    var base := Dot(Pull(v, gr.colMap), ge, k);
    if i == 0 {
      AddZero(base);
    } else {
      GatherReduced(gr, v, rhs, xs, i - 1);
      var c := gr.solved[i - 1];
      var t, row := Temp(gr, i - 1), CompressRow(gr, i - 1);
      var red := Reduce(gr, v, i - 1);
      DotXor(red, PickBits(v[c], row), ge, k);
      assert Dot(PickBits(v[c], row), ge, k) == Pick(v[c], Dot(row, ge, k)) by {
        DotNone(NoBits(k), ge, k);
      }
      PickAdd(v[c], t, Dot(row, ge, k));
      AddSwap(ReduceValue(gr, v, rhs, i - 1), Dot(red, ge, k), Pick(v[c], t), Pick(v[c], Dot(row, ge, k)));
      var sum, p := Gather(v, xs, gr.solved, i - 1), Pick(v[c], xs[c]);
      Shuffle(rhs, sum, base, p);
    }
  }

  lemma Shuffle(a: Block, b: Block, c: Block, p: Block)
    ensures Add(a, Add(Add(b, p), c)) == Add(Add(a, Add(b, c)), p)
  {
    hide Add;
    AddAssoc(b, p, c);
    AddComm(p, c);
    AddAssoc(b, c, p);
    AddAssoc(a, Add(b, c), p);
  }

  /** A solution of the peeled rows has each solved column as its compressed row says. */
  lemma {:induction false} SolvedColumn(gr: Graph, xs: seq<Block>, j: nat)
    requires GraphOk(gr) && Triangular(gr) && Partitioned(gr)
    requires |xs| == gr.width && PeeledHold(gr, xs) && j < |gr.order|
    ensures xs[gr.solved[j]] == Add(Temp(gr, j), Dot(CompressRow(gr, j), PullBlocks(xs, gr.colMap), |gr.colMap|))
    decreases j
  {
    hide Add, Partitioned;
    var ge, k := PullBlocks(xs, gr.colMap), |gr.colMap|;
    var v, rhs := gr.vecs[gr.order[j]], gr.inputs[gr.order[j]];
    forall i | 0 <= i < j
      ensures xs[gr.solved[i]] == Add(Temp(gr, i), Dot(CompressRow(gr, i), ge, k))
    {
      SolvedColumn(gr, xs, i);
    }
    GatherReduced(gr, v, rhs, xs, j);
    SplitDot(gr, v, xs);
    GatherTail(gr, v, xs, j, |gr.solved|);
    var sum, base, x := Gather(v, xs, gr.solved, j), Dot(Pull(v, gr.colMap), ge, k), xs[gr.solved[j]];
    // rhs == (sum + x) + base, so x == rhs + (sum + base)
    Shuffle(Zero(), sum, base, x);
    AddZero(Add(Add(sum, x), base));
    AddZero(Add(sum, base));
    AddMove(Add(sum, base), x, rhs);
    AddComm(Add(sum, base), rhs);
  }

  // Later solved columns do not occur in an earlier peeled row.
  lemma {:induction false} GatherTail(gr: Graph, v: Bits, xs: seq<Block>, j: nat, k: nat)
    requires GraphOk(gr) && Triangular(gr) && |xs| == gr.width && j < k <= |gr.order|
    requires v == gr.vecs[gr.order[j]]
    ensures Gather(v, xs, gr.solved, k) == Add(Gather(v, xs, gr.solved, j), xs[gr.solved[j]])
  {
    hide Add;
    if k > j + 1 {
      GatherTail(gr, v, xs, j, k - 1);
      AddZero(Gather(v, xs, gr.solved, k - 1));
    }
  }

  /** Over solutions of the peeled rows, an equation v = rhs says exactly what its reduced form says
      about the elimination columns. */
  lemma {:induction false} ReducedEquation(gr: Graph, v: Bits, rhs: Block, xs: seq<Block>)
    requires GraphOk(gr) && Triangular(gr) && Partitioned(gr) && |v| == |xs| == gr.width && PeeledHold(gr, xs)
    ensures Dot(v, xs, gr.width) == rhs <==>
            Dot(Reduce(gr, v, |gr.order|), PullBlocks(xs, gr.colMap), |gr.colMap|)
            == ReduceValue(gr, v, rhs, |gr.order|)
  {
    hide Add, Partitioned, Triangular;
    var ge, k := PullBlocks(xs, gr.colMap), |gr.colMap|;
    forall j | 0 <= j < |gr.order|
      ensures xs[gr.solved[j]] == Add(Temp(gr, j), Dot(CompressRow(gr, j), ge, k))
    {
      SolvedColumn(gr, xs, j);
    }
    GatherReduced(gr, v, rhs, xs, |gr.order|);
    SplitDot(gr, v, xs);
    var left := Dot(v, xs, gr.width);
    var red, value := Dot(Reduce(gr, v, |gr.order|), ge, k), ReduceValue(gr, v, rhs, |gr.order|);
    assert Add(rhs, left) == Add(value, red);
    SameWhenZero(rhs, left);
    SameWhenZero(value, red);
  }

  lemma SameWhenZero(x: Block, y: Block)
    ensures Add(x, y) == Zero() <==> x == y
  {
    hide Add;
    AddSelf(x);
    AddCancel(x, y);
    AddZero(x);
    AddZero(y);
  }
}
