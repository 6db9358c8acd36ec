/** The values being substituted, level by level, and the block operations that raise a level (src/fec/Wirehair.cpp). */
module Substitution {
  import opened ColumnIterator
  import opened Blocks
  import opened Compression
  import opened GaloisField
  import opened Elimination
  import opened Solving
  import opened Triangle
  import opened Windows

  // ---- Levels: how many columns have been substituted into each value ----

  ghost predicate ForwardAt(f: Tables, us: seq<Row>, bs: seq<Block>, vals: seq<Block>, levels: seq<nat>) {
    && Square(us) && |bs| == |vals| == |levels| == |us|
    && forall i :: 0 <= i < |us| ==> levels[i] <= |us| && vals[i] == Forward(f, us, bs, levels[i], i)
  }

  ghost predicate BackwardAt(f: Tables, us: seq<Row>, ys: seq<Block>, vals: seq<Block>, levels: seq<nat>) {
    && Square(us) && |ys| == |vals| == |levels| == |us|
    && forall i :: 0 <= i < |us| ==> levels[i] <= |us| && vals[i] == Backward(f, us, ys, levels[i], i)
  }

  lemma ForwardStart(f: Tables, us: seq<Row>, bs: seq<Block>)
    requires Square(us) && |bs| == |us|
    ensures ForwardAt(f, us, bs, bs, seq(|us|, _ => 0))
  {}

  lemma BackwardStart(f: Tables, us: seq<Row>, ys: seq<Block>)
    requires Square(us) && |ys| == |us|
    ensures BackwardAt(f, us, ys, ys, seq(|us|, _ => |us|))
  {}

  lemma ForwardShape(f: Tables, us: seq<Row>, bs: seq<Block>, vals: seq<Block>, levels: seq<nat>)
    requires ForwardAt(f, us, bs, vals, levels)
    ensures Square(us) && |bs| == |vals| == |levels| == |us|
  {}

  lemma BackwardShape(f: Tables, us: seq<Row>, ys: seq<Block>, vals: seq<Block>, levels: seq<nat>)
    requires BackwardAt(f, us, ys, vals, levels)
    ensures Square(us) && |ys| == |vals| == |levels| == |us|
  {}

  /** Column c, itself final, substituted into value i. */
  lemma ForwardStep(f: Tables, us: seq<Row>, bs: seq<Block>, vals: seq<Block>, levels: seq<nat>, i: nat, c: nat)
    requires ForwardAt(f, us, bs, vals, levels) && c < i < |us| && levels[i] == c && c <= levels[c]
    ensures ForwardAt(f, us, bs, vals[i := Add(vals[i], Scale(f, us[i][c], vals[c]))], levels[i := c + 1])
  {
    hide Add, Scale;
    ForwardStays(f, us, bs, levels[c], c);
  }

  lemma BackwardStep(f: Tables, us: seq<Row>, ys: seq<Block>, vals: seq<Block>, levels: seq<nat>, i: nat, c: nat)
    requires BackwardAt(f, us, ys, vals, levels) && i < c < |us| && levels[i] == c + 1 && levels[c] <= c
    ensures BackwardAt(f, us, ys, vals[i := Add(vals[i], Scale(f, us[i][c], vals[c]))], levels[i := c])
  {
    hide Add, Scale, Quotient;
    BackwardStays(f, us, ys, levels[c], c);
  }

  /** The diagonal divided out of value i. */
  lemma BackwardDivide(f: Tables, us: seq<Row>, ys: seq<Block>, vals: seq<Block>, levels: seq<nat>, i: nat)
    requires BackwardAt(f, us, ys, vals, levels) && i < |us| && levels[i] == i + 1
    ensures BackwardAt(f, us, ys, vals[i := Quotient(f, vals[i], us[i][i])], levels[i := i])
  {
    hide Add, Scale, Quotient;
  }

  /** A whole window of final columns substituted at once. */
  lemma ForwardWindow(f: Tables, us: seq<Row>, bs: seq<Block>, vals: seq<Block>, levels: seq<nat>, i: nat, p: nat,
                      w: nat)
    requires ForwardAt(f, us, bs, vals, levels) && p + w <= i < |us| && levels[i] == p
    requires forall c :: p <= c < p + w ==> c <= levels[c]
    ensures ForwardAt(f, us, bs, vals[i := Add(vals[i], Span(f, us[i], vals, p, w))], levels[i := p + w])
  {
    hide Add, Scale;
    forall c | p <= c < p + w ensures vals[c] == ForwardAll(f, us, bs)[c] {
      ForwardStays(f, us, bs, levels[c], c);
    }
    SpanSame(f, us[i], vals, ForwardAll(f, us, bs), p, w);
    ForwardSpan(f, us, bs, p, w, i);
  }

  lemma BackwardWindow(f: Tables, us: seq<Row>, ys: seq<Block>, vals: seq<Block>, levels: seq<nat>, i: nat, q: nat,
                       w: nat)
    requires BackwardAt(f, us, ys, vals, levels) && i < q && q + w <= |us| && levels[i] == q + w
    requires forall c :: q <= c < q + w ==> levels[c] <= c
    ensures BackwardAt(f, us, ys, vals[i := Add(vals[i], Span(f, us[i], vals, q, w))], levels[i := q])
  {
    hide Add, Scale, Quotient;
    forall c | q <= c < q + w ensures vals[c] == BackwardAll(f, us, ys)[c] {
      BackwardStays(f, us, ys, levels[c], c);
    }
    SpanSame(f, us[i], vals, BackwardAll(f, us, ys), q, w);
    BackwardSpan(f, us, ys, q, w, i);
  }

  lemma {:induction false} SpanSame(f: Tables, row: Row, xs: seq<Block>, ys: seq<Block>, p: nat, w: nat)
    requires p + w <= |row| && p + w <= |xs| && p + w <= |ys| && forall c :: p <= c < p + w ==> xs[c] == ys[c]
    ensures Span(f, row, xs, p, w) == Span(f, row, ys, p, w)
  {
    hide Add, Scale;
    if w > 0 {
      SpanSame(f, row, xs, ys, p, w - 1);
    }
  }

  /** A row with nothing in a span of columns passes over it. */
  lemma ForwardPass(f: Tables, us: seq<Row>, bs: seq<Block>, vals: seq<Block>, levels: seq<nat>, i: nat, p: nat, w: nat)
    requires IsField(f) && ForwardAt(f, us, bs, vals, levels) && p + w <= i < |us| && levels[i] == p
    requires forall c :: p <= c < p + w ==> us[i][c] == ZERO
    ensures ForwardAt(f, us, bs, vals, levels[i := p + w])
  {
    hide Add, Scale, IsField;
    NoBitsSpan(f, us[i], ForwardAll(f, us, bs), p, w);
    ForwardSpan(f, us, bs, p, w, i);
    AddZero(vals[i]);
  }

  lemma ForwardEnd(f: Tables, us: seq<Row>, bs: seq<Block>, vals: seq<Block>, levels: seq<nat>)
    requires ForwardAt(f, us, bs, vals, levels) && forall i :: 0 <= i < |us| ==> i <= levels[i]
    ensures vals == ForwardAll(f, us, bs)
  {
    hide Add, Scale;
    forall i | 0 <= i < |us| ensures vals[i] == ForwardAll(f, us, bs)[i] {
      ForwardStays(f, us, bs, levels[i], i);
    }
  }

  lemma BackwardEnd(f: Tables, us: seq<Row>, ys: seq<Block>, vals: seq<Block>, levels: seq<nat>)
    requires BackwardAt(f, us, ys, vals, levels) && forall i :: 0 <= i < |us| ==> levels[i] <= i
    ensures vals == BackwardAll(f, us, ys)
  {
    hide Add, Scale, Quotient;
    forall i | 0 <= i < |us| ensures vals[i] == BackwardAll(f, us, ys)[i] {
      BackwardStays(f, us, ys, levels[i], i);
    }
  }

  // ---- The blocks behind the values ----

  lemma PullSet(recovery: seq<Block>, colMap: seq<nat>, i: nat, x: Block)
    requires Distinct(colMap) && i < |colMap| && forall g :: 0 <= g < |colMap| ==> colMap[g] < |recovery|
    ensures PullBlocks(recovery[colMap[i] := x], colMap) == PullBlocks(recovery, colMap)[i := x]
  {}

  lemma PullOff(recovery: seq<Block>, recovery': seq<Block>, colMap: seq<nat>)
    requires |recovery'| == |recovery| && forall g :: 0 <= g < |colMap| ==> colMap[g] < |recovery|
    requires forall g :: 0 <= g < |colMap| ==> recovery'[colMap[g]] == recovery[colMap[g]]
    ensures PullBlocks(recovery', colMap) == PullBlocks(recovery, colMap)
  {}

  /** An eliminated matrix, its pivots, and one block for every column. */
  ghost predicate InForm(elim: Eliminator)
    reads elim, elim.comp
  {
    var comp := elim.comp;
    && IsField(elim.f) && elim.Shaped() && |elim.pivots| == |comp.colMap| == elim.Width()
    && Distinct(comp.colMap) && (forall g :: 0 <= g < |comp.colMap| ==> comp.colMap[g] < |comp.recovery|)
    && (forall i :: 0 <= i < |elim.pivots| ==> elim.pivots[i] < |comp.ge| + |elim.heavy|)
    && (forall i :: 0 <= i < elim.firstHeavyColumn ==> elim.pivots[i] < elim.Light())
  }

  /** The rows of L and U, by pivot. */
  ghost function Us(elim: Eliminator): (us: seq<Row>)
    reads elim, elim.comp`ge
    ensures |us| == |elim.pivots|
  {
    PivotRows(elim.Rows(), elim.pivots)
  }

  ghost function Vals(elim: Eliminator): (vals: seq<Block>)
    requires InForm(elim)
    reads elim, elim.comp
    ensures |vals| == elim.Width()
  {
    PullBlocks(elim.comp.recovery, elim.comp.colMap)
  }

  /** Entry (i, j) of the eliminated matrix, from whichever matrix holds its row. */
  function Entry(elim: Eliminator, i: nat, j: nat): Byte
    requires InForm(elim) && i < elim.Width() && j < elim.Width()
    reads elim, elim.comp
  {
    var r := elim.pivots[i];
    if r < elim.Light() then (if elim.comp.ge[r][j] then ONE else ZERO)
    else if j < elim.firstHeavyColumn then ZERO
    else elim.heavy[r - elim.Light()][j - elim.firstHeavyColumn]
  }

  lemma EntryIs(elim: Eliminator, i: nat, j: nat)
    requires InForm(elim) && i < elim.Width() && j < elim.Width()
    ensures Square(Us(elim)) && Us(elim)[i][j] == Entry(elim, i, j)
  {
    hide IsField, Distinct;
    var comp := elim.comp;
    assert Square(Us(elim)) by {
      elim.ShapedRows();
    }
    if elim.pivots[i] < elim.Light() {
      FullAt(comp.ge, elim.heavy, elim.firstHeavyColumn, elim.pivots[i], 0);
    } else {
      FullAt(comp.ge, elim.heavy, elim.firstHeavyColumn, 0, elim.pivots[i] - elim.Light());
    }
  }

  /** Only the blocks at elimination columns differ. */
  ghost predicate OffMapSame(recovery: seq<Block>, recovery': seq<Block>, colMap: seq<nat>) {
    |recovery'| == |recovery| && forall x :: 0 <= x < |recovery| && x !in colMap ==> recovery'[x] == recovery[x]
  }

  /** Adds code times value c to value i: memxor when the code is one, a table multiply otherwise. */
  method AddScaled(elim: Eliminator, i: nat, c: nat, code: Byte)
    requires InForm(elim) && i < elim.Width() && c < elim.Width()
    modifies elim.comp`recovery
    ensures InForm(elim) && Us(elim) == old(Us(elim))
    ensures Vals(elim) == old(Vals(elim))[i := Add(old(Vals(elim))[i], Scale(elim.f, code, old(Vals(elim))[c]))]
    ensures OffMapSame(old(elim.comp.recovery), elim.comp.recovery, elim.comp.colMap)
  {
    hide IsField, Add, Scale, Distinct, FullRows;
    var comp := elim.comp;
    var dest, src := comp.colMap[i], comp.colMap[c];
    ScaleUnits(elim.f, ONE, comp.recovery[src]);
    AddZero(comp.recovery[dest]);
    if code != ZERO {
      var sum := if code == ONE then Add(comp.recovery[dest], comp.recovery[src])
                 else Add(comp.recovery[dest], Scale(elim.f, code, comp.recovery[src]));
      PullSet(comp.recovery, comp.colMap, i, sum);
      comp.recovery := comp.recovery[dest := sum];
    }
  }

  /** Divides value i by its diagonal entry, unless that is one. */
  method DivideDiagonal(elim: Eliminator, i: nat)
    requires InForm(elim) && i < elim.Width() && Entry(elim, i, i) != ZERO
    modifies elim.comp`recovery
    ensures InForm(elim) && Us(elim) == old(Us(elim))
    ensures Vals(elim) == old(Vals(elim))[i := Quotient(elim.f, old(Vals(elim))[i], Entry(elim, i, i))]
    ensures OffMapSame(old(elim.comp.recovery), elim.comp.recovery, elim.comp.colMap)
  {
    hide IsField, Quotient, Scale, Distinct, FullRows;
    var comp := elim.comp;
    var dest := comp.colMap[i];
    var code := Entry(elim, i, i);
    ScaleQuotient(elim.f, ONE, comp.recovery[dest], comp.recovery[dest]);
    ScaleUnits(elim.f, ONE, comp.recovery[dest]);
    if elim.pivots[i] >= elim.Light() && code != ONE {
      PullSet(comp.recovery, comp.colMap, i, Quotient(elim.f, comp.recovery[dest], code));
      comp.recovery := comp.recovery[dest := Quotient(elim.f, comp.recovery[dest], code)];
    }
  }
}
