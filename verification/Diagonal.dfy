/** PeelDiagonal and its neighbours as steps on the Compression matrix and the temporary blocks
    (src/fec/Wirehair.cpp). */
module Diagonal {
  import opened ColumnIterator
  import opened Blocks
  import opened Compression

  /** The part of an equation's coefficients that falls on the first df elimination columns, or on the rest. */
  ghost function DeferPart(v: Bits, map': seq<nat>, df: nat): (r: Bits)
    requires forall i :: 0 <= i < |map'| ==> map'[i] < |v|
    ensures |r| == |map'|
  {
    seq(|map'|, g requires 0 <= g < |map'| => g < df && v[map'[g]])
  }

  ghost function MixPart(v: Bits, map': seq<nat>, df: nat): (r: Bits)
    requires forall i :: 0 <= i < |map'| ==> map'[i] < |v|
    ensures |r| == |map'|
  {
    seq(|map'|, g requires 0 <= g < |map'| => g >= df && v[map'[g]])
  }

  lemma PartsJoin(v: Bits, map': seq<nat>, df: nat)
    requires forall i :: 0 <= i < |map'| ==> map'[i] < |v|
    ensures XorBits(DeferPart(v, map', df), MixPart(v, map', df)) == Pull(v, map')
    ensures XorBits(Pull(v, map'), MixPart(v, map', df)) == DeferPart(v, map', df)
  {}

  /** The Compression matrix row of the j-th peeled row before step i: complete from step j + 1 on,
      and without its mix columns until then. */
  ghost function PeeledRowAfter(gr: Graph, df: nat, j: nat, i: nat): (row: Bits)
    requires GraphOk(gr) && j < |gr.order| && i <= |gr.order|
    ensures |row| == |gr.colMap|
  {
    var v := gr.vecs[gr.order[j]];
    if j < i then CompressRow(gr, j) else XorBits(Reduce(gr, v, i), MixPart(v, gr.colMap, df))
  }

  /** What stands for the value of the j-th peeled row before step i. */
  ghost function ValueAfter(gr: Graph, j: nat, i: nat): Block
    requires GraphOk(gr) && j < |gr.order| && i <= |gr.order|
  {
    if j < i then Temp(gr, j)
    else ReduceValue(gr, gr.vecs[gr.order[j]], gr.inputs[gr.order[j]], i)
  }

  /** The value slot of a peeled row: its column's block once something was copied there, else the input. */
  ghost function Slot(gr: Graph, copied: seq<bool>, recovery: seq<Block>, j: nat): Block
    requires GraphOk(gr) && j < |gr.order| && |copied| == |gr.vecs| && |recovery| >= gr.width
  {
    if copied[gr.order[j]] then recovery[gr.solved[j]] else gr.inputs[gr.order[j]]
  }

  /** The matrix and the blocks before step i; rest lists the rows that were not peeled. */
  ghost predicate Progress(gr: Graph, df: nat, rest: seq<nat>, compress: seq<Bits>, copied: seq<bool>,
                           recovery: seq<Block>, i: nat)
    requires GraphOk(gr) && i <= |gr.order|
  {
    && |compress| == |copied| == |gr.vecs| && |recovery| >= gr.width
    && (forall k :: 0 <= k < |rest| ==> rest[k] < |gr.vecs| && compress[rest[k]] == Reduce(gr, gr.vecs[rest[k]], i))
    && (forall j :: 0 <= j < |gr.order| ==> compress[gr.order[j]] == PeeledRowAfter(gr, df, j, i))
    && (forall j :: 0 <= j < i ==> recovery[gr.solved[j]] == ValueAfter(gr, j, i))
    && (forall j :: i <= j < |gr.order| ==> Slot(gr, copied, recovery, j) == ValueAfter(gr, j, i))
  }

  /** Step i completes row p and its block, and adds both to every other row that has p's column. */
  ghost predicate StepDone(gr: Graph, df: nat, i: nat,
                           compress: seq<Bits>, compress': seq<Bits>, copied: seq<bool>, copied': seq<bool>,
                           recovery: seq<Block>, recovery': seq<Block>)
    requires GraphOk(gr) && i < |gr.order|
  {
    var p, c := gr.order[i], gr.solved[i];
    && |compress'| == |compress| == |copied'| == |copied| == |gr.vecs| && |recovery'| == |recovery| >= gr.width
    && (forall r :: 0 <= r < |compress| ==> |compress[r]| == |gr.colMap|)
    && var row := XorBits(compress[p], MixPart(gr.vecs[p], gr.colMap, df));
       var block := Slot(gr, copied, recovery, i);
    && compress'[p] == row && recovery'[c] == block
    && (forall r :: 0 <= r < |compress| && r != p ==> compress'[r] == if gr.vecs[r][c] then XorBits(compress[r], row)
                                                                      else compress[r])
    && (forall j :: 0 <= j < |gr.order| && j != i ==>
          if gr.vecs[gr.order[j]][c] then
            copied'[gr.order[j]] && recovery'[gr.solved[j]] == Add(Slot(gr, copied, recovery, j), block)
          else copied'[gr.order[j]] == copied[gr.order[j]] && recovery'[gr.solved[j]] == recovery[gr.solved[j]])
  }

  lemma {:induction false} StepKeeps(
      gr: Graph, df: nat, rest: seq<nat>, i: nat,
      compress: seq<Bits>, compress': seq<Bits>, copied: seq<bool>, copied': seq<bool>,
      recovery: seq<Block>, recovery': seq<Block>)
    requires GraphOk(gr) && Triangular(gr) && Distinct(gr.order) && i < |gr.order|
    requires forall k :: 0 <= k < |rest| ==> rest[k] !in gr.order
    requires Progress(gr, df, rest, compress, copied, recovery, i)
    requires StepDone(gr, df, i, compress, compress', copied, copied', recovery, recovery')
    ensures Progress(gr, df, rest, compress', copied', recovery', i + 1)
  {
    hide Add, XorBits, MixPart, Distinct;
    StepRows(gr, df, rest, i, compress, compress', copied, copied', recovery, recovery');
    StepValues(gr, df, rest, i, compress, compress', copied, copied', recovery, recovery');
  }

  lemma {:induction false} StepRows(
      gr: Graph, df: nat, rest: seq<nat>, i: nat,
      compress: seq<Bits>, compress': seq<Bits>, copied: seq<bool>, copied': seq<bool>,
      recovery: seq<Block>, recovery': seq<Block>)
    requires GraphOk(gr) && Triangular(gr) && Distinct(gr.order) && i < |gr.order|
    requires forall k :: 0 <= k < |rest| ==> rest[k] !in gr.order
    requires Progress(gr, df, rest, compress, copied, recovery, i)
    requires StepDone(gr, df, i, compress, compress', copied, copied', recovery, recovery')
    ensures forall k :: 0 <= k < |rest| ==> compress'[rest[k]] == Reduce(gr, gr.vecs[rest[k]], i + 1)
    ensures forall j :: 0 <= j < |gr.order| ==> compress'[gr.order[j]] == PeeledRowAfter(gr, df, j, i + 1)
  {
    hide Add, Slot, ValueAfter, MixPart, XorBits, Temp, ReduceValue;
    var p, c := gr.order[i], gr.solved[i];
    var mix := MixPart(gr.vecs[p], gr.colMap, df);
    var done := CompressRow(gr, i);
    assert compress[p] == PeeledRowAfter(gr, df, i, i);
    XorBitsLaws(Reduce(gr, gr.vecs[p], i), mix, mix);
    assert XorBits(compress[p], mix) == done;
    forall k | 0 <= k < |rest| ensures compress'[rest[k]] == Reduce(gr, gr.vecs[rest[k]], i + 1) {
      assert rest[k] != p;
      XorBitsLaws(compress[rest[k]], done, done);
    }
    forall j | 0 <= j < |gr.order| ensures compress'[gr.order[j]] == PeeledRowAfter(gr, df, j, i + 1) {
      var v := gr.vecs[gr.order[j]];
      if j < i {
        assert !v[c];
      } else if j > i {
        var m := MixPart(v, gr.colMap, df);
        XorBitsLaws(Reduce(gr, v, i), m, done);
        XorBitsLaws(Reduce(gr, v, i), done, m);
        XorBitsLaws(m, done, done);
      }
    }
  }

  lemma {:induction false} StepValues(
      gr: Graph, df: nat, rest: seq<nat>, i: nat,
      compress: seq<Bits>, compress': seq<Bits>, copied: seq<bool>, copied': seq<bool>,
      recovery: seq<Block>, recovery': seq<Block>)
    requires GraphOk(gr) && Triangular(gr) && i < |gr.order|
    requires Progress(gr, df, rest, compress, copied, recovery, i)
    requires StepDone(gr, df, i, compress, compress', copied, copied', recovery, recovery')
    ensures forall j :: 0 <= j < i + 1 ==> recovery'[gr.solved[j]] == ValueAfter(gr, j, i + 1)
    ensures forall j :: i + 1 <= j < |gr.order| ==> Slot(gr, copied', recovery', j) == ValueAfter(gr, j, i + 1)
  {
    hide Add, MixPart, XorBits, PeeledRowAfter, Reduce;
    var c := gr.solved[i];
    forall j | 0 <= j < i + 1 ensures recovery'[gr.solved[j]] == ValueAfter(gr, j, i + 1) {
      if j < i {
        assert !gr.vecs[gr.order[j]][c];
      }
    }
    forall j | i + 1 <= j < |gr.order| ensures Slot(gr, copied', recovery', j) == ValueAfter(gr, j, i + 1) {
      var v := gr.vecs[gr.order[j]];
      assert Slot(gr, copied, recovery, j) == ValueAfter(gr, j, i);
      AddZero(ValueAfter(gr, j, i));
    }
  }
}
