/** Window tables: every sum of up to seven blocks, looked up by the bits of a row (src/fec/Wirehair.cpp). */
module Windows {
  import opened Blocks
  import opened GaloisField
  import opened Solving

  /** The bits of a row from column p on, w of them, as a number. */
  function WindowBits(row: Bits, p: nat, w: nat): (x: nat)
    requires p + w <= |row|
    ensures x < Pow2(w)
  {
    if w == 0 then 0 else WindowBits(row, p, w - 1) + if row[p + w - 1] then Pow2(w - 1) else 0
  }

  /** The sum of the values from p on that the bits of x select. */
  ghost function TableSum(vals: seq<Block>, p: nat, w: nat, x: nat): Block
    requires p + w <= |vals| && x < Pow2(w)
  {
    if w == 0 then Zero()
    else if x >= Pow2(w - 1) then Add(TableSum(vals, p, w - 1, x - Pow2(w - 1)), vals[p + w - 1])
    else TableSum(vals, p, w - 1, x)
  }

  /** The part of a row's product that falls on columns p..p+w-1. */
  ghost function Span(f: Tables, row: Row, xs: seq<Block>, p: nat, w: nat): Block
    requires p + w <= |row| && p + w <= |xs|
  {
    if w == 0 then Zero() else Add(Span(f, row, xs, p, w - 1), Scale(f, row[p + w - 1], xs[p + w - 1]))
  }

  /** One table entry is the whole window's part of a bit row. */
  lemma {:induction false} TableIsSpan(f: Tables, row: Bits, vals: seq<Block>, p: nat, w: nat)
    requires IsField(f) && p + w <= |row| && p + w <= |vals|
    ensures TableSum(vals, p, w, WindowBits(row, p, w)) == Span(f, Lift(row), vals, p, w)
  {
    hide Add, Scale, IsField;
    if w > 0 {
      TableIsSpan(f, row, vals, p, w - 1);
      ScaleUnits(f, ONE, vals[p + w - 1]);
      AddZero(TableSum(vals, p, w - 1, WindowBits(row, p, w - 1)));
    }
  }

  /** A wider window keeps the sums of a narrower one. */
  lemma TableWiden(vals: seq<Block>, p: nat, w: nat, x: nat)
    requires p + w + 1 <= |vals| && x < Pow2(w)
    ensures TableSum(vals, p, w + 1, x) == TableSum(vals, p, w, x)
    ensures TableSum(vals, p, w + 1, Pow2(w) + x) == Add(TableSum(vals, p, w, x), vals[p + w])
  {
    hide Add;
  }

  lemma {:induction false} TableZero(vals: seq<Block>, p: nat, w: nat)
    requires p + w <= |vals|
    ensures TableSum(vals, p, w, 0) == Zero()
  {
    if w > 0 {
      TableZero(vals, p, w - 1);
    }
  }

  lemma {:induction false} NoBitsSpan(f: Tables, row: Row, xs: seq<Block>, p: nat, w: nat)
    requires IsField(f) && p + w <= |row| && p + w <= |xs| && forall c :: p <= c < p + w ==> row[c] == ZERO
    ensures Span(f, row, xs, p, w) == Zero()
  {
    hide Add, Scale, IsField;
    if w > 0 {
      NoBitsSpan(f, row, xs, p, w - 1);
      ScaleUnits(f, ZERO, xs[p + w - 1]);
      AddZero(Zero());
    }
  }

  /** Substituting a span of columns at once, below the diagonal ... */
  lemma {:induction false} ForwardSpan(f: Tables, us: seq<Row>, bs: seq<Block>, p: nat, w: nat, i: nat)
    requires Square(us) && |bs| == |us| && p + w <= i < |us|
    ensures Forward(f, us, bs, p + w, i) == Add(Forward(f, us, bs, p, i), Span(f, us[i], ForwardAll(f, us, bs), p, w))
  {
    hide Add, Scale;
    var ys := ForwardAll(f, us, bs);
    if w == 0 {
      AddZero(Forward(f, us, bs, p, i));
    } else {
      ForwardSpan(f, us, bs, p, w - 1, i);
      AddAssoc(Forward(f, us, bs, p, i), Span(f, us[i], ys, p, w - 1), Scale(f, us[i][p + w - 1], ys[p + w - 1]));
    }
  }

  /** ... and above it. */
  lemma {:induction false} BackwardSpan(f: Tables, us: seq<Row>, ys: seq<Block>, q: nat, w: nat, i: nat)
    requires Square(us) && |ys| == |us| && i < q && q + w <= |us|
    ensures Backward(f, us, ys, q, i)
              == Add(Backward(f, us, ys, q + w, i), Span(f, us[i], BackwardAll(f, us, ys), q, w))
    decreases w
  {
    hide Add, Scale;
    var zs := BackwardAll(f, us, ys);
    if w == 0 {
      AddZero(Backward(f, us, ys, q, i));
    } else {
      // peel off the highest column of the window
      BackwardSpan(f, us, ys, q, w - 1, i);
      var s := Span(f, us[i], zs, q, w - 1);
      var x := Scale(f, us[i][q + w - 1], zs[q + w - 1]);
      var far := Backward(f, us, ys, q + w, i);
      BackwardStays(f, us, ys, q + w - 1, q + w - 1);
      assert Backward(f, us, ys, q + w - 1, i) == Add(far, x);
      AddAssoc(far, x, s);
      AddComm(x, s);
    }
  }
}
