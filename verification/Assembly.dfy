/** CopyDeferredRows, AddInvertibleGF2Matrix and SetHeavyRows: the last parts of the elimination matrix
    (src/fec/Wirehair.cpp). */
module Assembly {
  import opened CheckMatrix
  import opened Blocks
  import opened Compression
  import opened PeelOutcome
  import opened Shuffle
  import opened DensePass
  import opened GaloisField
  import opened Compressing
  import opened Triangle
  import opened CheckSystem

  /** Coefficients on elimination columns only reduce to themselves. */
  lemma {:induction false} ReduceUnsolved(gr: Graph, v: Bits, rhs: Block, i: nat)
    requires GraphOk(gr) && |v| == gr.width && i <= |gr.order| && forall j :: 0 <= j < i ==> !v[gr.solved[j]]
    ensures Reduce(gr, v, i) == Pull(v, gr.colMap) && ReduceValue(gr, v, rhs, i) == rhs
  {
    hide Add;
    if i > 0 {
      ReduceUnsolved(gr, v, rhs, i - 1);
      XorBitsLaws(Pull(v, gr.colMap), NoBits(|gr.colMap|), NoBits(|gr.colMap|));
      AddZero(rhs);
    }
  }

  /** The tie of a dense row to its mix columns passes through reduction unchanged, at the mix columns' place. */
  lemma InvertibleReduced(pr: Params, gr: Graph, deferCols: seq<nat>, stream: nat -> nat, rho: nat)
    requires GraphOk(gr) && gr.width == pr.n + pr.M() && gr.colMap == MixMap(pr, deferCols)
    requires forall j :: 0 <= j < |gr.order| ==> gr.solved[j] < pr.n
    requires forall g :: 0 <= g < |deferCols| ==> deferCols[g] < pr.n
    ensures var v := InvertibleRow(stream, pr.d, rho, pr.n, pr.n + pr.M());
            && Reduce(gr, v, |gr.order|) == InvertibleRow(stream, pr.d, rho, |deferCols|, |gr.colMap|)
            && ReduceValue(gr, v, Zero(), |gr.order|) == Zero()
  {
    hide InvertibleBit;
    var v := InvertibleRow(stream, pr.d, rho, pr.n, pr.n + pr.M());
    ReduceUnsolved(gr, v, Zero(), |gr.order|);
    var r := InvertibleRow(stream, pr.d, rho, |deferCols|, |gr.colMap|);
    forall g | 0 <= g < |gr.colMap| ensures Pull(v, gr.colMap)[g] == r[g] {
      if g >= |deferCols| {
        assert gr.colMap[g] == pr.n + (g - |deferCols|);
      }
    }
  }

  /** What a dense row and its value reduce to once the tie is added. */
  lemma DenseReduced(pr: Params, gr: Graph, deferCols: seq<nat>, seeds: Seeds, rho: nat)
    requires 0 < pr.d && rho < pr.d && GraphOk(gr) && gr.width == pr.n + pr.M() && gr.colMap == MixMap(pr, deferCols)
    requires forall j :: 0 <= j < |gr.order| ==> gr.solved[j] < pr.n
    requires forall g :: 0 <= g < |deferCols| ==> deferCols[g] < pr.n
    ensures Reduce(gr, DenseCheck(pr, seeds, rho), |gr.order|) ==
            XorBits(Reduce(gr, DenseRow(seeds.dense, pr.d, pr.n, gr.width, rho), |gr.order|),
                    InvertibleRow(seeds.invertible, pr.d, rho, |deferCols|, |gr.colMap|))
    ensures ReduceValue(gr, DenseCheck(pr, seeds, rho), Zero(), |gr.order|) ==
            ReduceValue(gr, DenseRow(seeds.dense, pr.d, pr.n, gr.width, rho), Zero(), |gr.order|)
  {
    hide InvertibleRow, DenseRow, Reduce, ReduceValue, Add, XorBits, GraphOk, MixMap;
    var v, w := DenseRow(seeds.dense, pr.d, pr.n, gr.width, rho),
        InvertibleRow(seeds.invertible, pr.d, rho, pr.n, pr.n + pr.M());
    InvertibleReduced(pr, gr, deferCols, seeds.invertible, rho);
    ReduceXor(gr, v, w, |gr.order|);
    ReduceValueXor(gr, v, w, Zero(), Zero(), |gr.order|);
    AddZero(Zero());
    AddZero(ReduceValue(gr, v, Zero(), |gr.order|));
  }

  /** Copies the deferred rows of the Compression matrix below the dense rows and records where they came from. Those
      the elimination matrix has no rows for go to the spare rows after it. */
  method CopyDeferredRows(comp: Compressor, ghost gr: Graph, ghost deferRows: seq<nat>, ghost deferCols: seq<nat>)
    requires comp.Joined(gr, deferRows, deferCols) && |comp.compress| == comp.pr.n
    requires comp.pr.d <= |comp.ge| && comp.pr.d + |deferRows| <= |comp.ge| + |comp.spare|
    requires comp.pr.d + |deferRows| <= |comp.rowMap|
    modifies comp`ge, comp`spare, comp`rowMap
    ensures |comp.ge| == old(|comp.ge|) && |comp.rowMap| == old(|comp.rowMap|) && |comp.spare| == old(|comp.spare|)
    ensures forall r :: 0 <= r < comp.pr.d ==> comp.ge[r] == old(comp.ge)[r]
    ensures forall t :: 0 <= t < |deferRows| ==> deferRows[t] < |comp.compress|
    ensures forall t :: 0 <= t < |deferRows| ==> comp.rowMap[comp.pr.d + t] == deferRows[t]
    ensures forall t :: 0 <= t < |deferRows| ==>
              MatrixRow(comp.ge, comp.spare, comp.pr.d + t) == comp.compress[deferRows[t]]
  {
    hide Wired, RowOk, RowVec, Params.Valid;
    var t, row := 0, comp.peel.deferHeadRows;
    DeferredRowAt(gr, deferRows, deferCols, comp.peel.rows, comp.peel.cols, comp.peel.refs,
                  comp.peel.headRows, comp.peel.deferHeadRows, comp.peel.deferHeadColumns, 0);
    while row != LIST_TERM
      invariant t <= |deferRows| && row == (if t < |deferRows| then deferRows[t] else LIST_TERM)
      invariant |comp.ge| == old(|comp.ge|) && |comp.rowMap| == old(|comp.rowMap|) && |comp.spare| == old(|comp.spare|)
      invariant forall r :: 0 <= r < comp.pr.d ==> comp.ge[r] == old(comp.ge)[r]
      invariant forall i :: 0 <= i < t ==> comp.rowMap[comp.pr.d + i] == deferRows[i]
      invariant forall i :: 0 <= i < t ==> MatrixRow(comp.ge, comp.spare, comp.pr.d + i) == comp.compress[deferRows[i]]
      decreases |deferRows| - t
    {
      DeferredRowAt(gr, deferRows, deferCols, comp.peel.rows, comp.peel.cols, comp.peel.refs,
                    comp.peel.headRows, comp.peel.deferHeadRows, comp.peel.deferHeadColumns, t);
      if comp.pr.d + t < |comp.ge| {
        comp.ge := comp.ge[comp.pr.d + t := comp.compress[row]];
      } else {
        comp.spare := comp.spare[comp.pr.d + t - |comp.ge| := comp.compress[row]];
      }
      comp.rowMap := comp.rowMap[comp.pr.d + t := row];
      row := comp.peel.rows[row].next;
      t := t + 1;
    }
  }

  /** Row r of the binary matrix, spare rows included. */
  function MatrixRow(ge: seq<Bits>, spare: seq<Bits>, r: nat): Bits
    requires r < |ge| + |spare|
  {
    if r < |ge| then ge[r] else spare[r - |ge|]
  }

  /** Adds the d by d invertible matrix to the dense rows at column offset. */
  method AddInvertibleGF2Matrix(comp: Compressor, stream: nat -> nat, offset: nat) returns (ok: bool)
    requires comp.pr.d <= |comp.ge| && forall r :: 0 <= r < |comp.ge| ==> offset + comp.pr.d <= |comp.ge[r]|
    modifies comp`ge
    ensures ok == (comp.pr.d > 0) && |comp.ge| == old(|comp.ge|)
    ensures forall r :: 0 <= r < |comp.ge| ==>
              comp.ge[r] == if r < comp.pr.d then
                              XorBits(old(comp.ge)[r], InvertibleRow(stream, comp.pr.d, r, offset, |old(comp.ge)[r]|))
                            else old(comp.ge)[r]
  {
    hide InvertibleRow, XorBits;
    if comp.pr.d <= 0 {
      return false;
    }
    for i := 0 to comp.pr.d
      invariant |comp.ge| == old(|comp.ge|)
      invariant forall r :: 0 <= r < |comp.ge| ==>
              comp.ge[r] == if r < i then
                              XorBits(old(comp.ge)[r], InvertibleRow(stream, comp.pr.d, r, offset, |old(comp.ge)[r]|))
                            else old(comp.ge)[r]
    {
      comp.ge := comp.ge[i := XorBits(comp.ge[i], InvertibleRow(stream, comp.pr.d, i, offset, |comp.ge[i]|))];
    }
    return true;
  }

  /** Draws one heavy row, a word for every four columns, and sets its part of the identity matrix. */
  method DrawHeavyRow(prng: Prng, hc: nat, i: nat) returns (row: Row)
    requires prng.pos == HeavyPos(hc, i) && hc >= CAT_HEAVY_ROWS
    modifies prng
    ensures row == HeavyRow(prng.stream, hc, i) && prng.pos == HeavyPos(hc, i + 1)
  {
    hide ByteOf;
    row := [];
    ghost var w := 0;
    while |row| < hc
      invariant |row| == 4 * w && w <= (hc + 3) / 4
      invariant prng.pos == HeavyPos(hc, i) + w
      invariant forall c :: 0 <= c < |row| ==> row[c] == ByteOf(Half(prng.stream(HeavyPos(hc, i) + c / 4), 8 * (c % 4)))
      decreases hc - |row|
    {
      var rv := prng.Next();
      row := row + [ByteOf(Half(rv, 0)), ByteOf(Half(rv, 8)), ByteOf(Half(rv, 16)), ByteOf(Half(rv, 24))];
      w := w + 1;
    }
    row := row[..hc];
    for j := 0 to CAT_HEAVY_ROWS
      invariant |row| == hc
      invariant forall c :: 0 <= c < hc ==>
        row[c] == if hc - CAT_HEAVY_ROWS <= c < hc - CAT_HEAVY_ROWS + j then
                    (if c + CAT_HEAVY_ROWS - hc == i then ONE else ZERO)
                  else ByteOf(Half(prng.stream(HeavyPos(hc, i) + c / 4), 8 * (c % 4)))
    {
      row := row[hc - CAT_HEAVY_ROWS + j := if i == j then ONE else ZERO];
    }
  }

  /** The heavy matrix: room for extra rows, then the six heavy rows. */
  method SetHeavyRows(elim: Eliminator, stream: nat -> nat)
    requires elim.heavyColumns >= CAT_HEAVY_ROWS
    modifies elim`heavy
    ensures |elim.heavy| == elim.extra + CAT_HEAVY_ROWS
    ensures forall h :: 0 <= h < |elim.heavy| ==>
              elim.heavy[h] == if h < elim.extra then ZeroRow(elim.heavyColumns)
                               else HeavyRow(stream, elim.heavyColumns, h - elim.extra)
  {
    hide HeavyRow;
    var prng := new Prng(stream);
    var hc := elim.heavyColumns;
    elim.heavy := seq(elim.extra, _ => ZeroRow(hc));
    for i := 0 to CAT_HEAVY_ROWS
      invariant prng.pos == HeavyPos(elim.heavyColumns, i) && prng.stream == stream
      invariant |elim.heavy| == elim.extra + i
      invariant forall h :: 0 <= h < |elim.heavy| ==>
              elim.heavy[h] == if h < elim.extra then ZeroRow(elim.heavyColumns)
                               else HeavyRow(stream, elim.heavyColumns, h - elim.extra)
    {
      var row := DrawHeavyRow(prng, elim.heavyColumns, i);
      elim.heavy := elim.heavy + [row];
    }
  }
}
