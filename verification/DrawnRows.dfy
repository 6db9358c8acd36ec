/** Fed rows and heavy rows by the words they are drawn from (src/fec/Wirehair.cpp:966-990, 2127-2153). */
module DrawnRows {
  import opened ColumnIterator
  import opened CheckMatrix
  import opened Blocks
  import opened GaloisField
  import opened HeavyWindow
  import opened PeelOutcome
  import opened CheckSystem
  import opened Codec

  // ---- Fed rows ----

  /** r is what m leaves of x. */
  ghost predicate Residue(r: int, x: nat, m: nat) {
    0 <= r < m && exists q: nat :: x == q * m + r
  }

  lemma ResidueIs(x: nat, m: nat)
    requires m > 0
    ensures Residue(x % m, x, m)
  {
    assert x == (x / m) * m + x % m;
  }

  /** The row of an id has as many distinct peel columns as its draw says, but no more than half the message, and three
      mix columns. The high half of each selector word is the first column, the low half the stride less one. */
  lemma RowOfId(ag: Agreement, id: nat, hi1: nat, lo1: nat, hi2: nat, lo2: nat)
    requires ag.Valid() && lo1 < 0x1_0000 && lo2 < 0x1_0000
    requires ag.draws(id).rv1 == hi1 * 0x1_0000 + lo1 && ag.draws(id).rv2 == hi2 * 0x1_0000 + lo2
    ensures var pr, g, weight := ag.pr, GenOf(ag, id), ag.draws(id).weight;
            && |PeelCols(pr, g)| == (if weight <= pr.n / 2 then weight else pr.n / 2) && Distinct(PeelCols(pr, g))
            && |MixCols(pr, g)| == 3 && Distinct(MixCols(pr, g))
            && Residue(PeelCols(pr, g)[0], hi1, pr.n) && Residue(g.a - 1, lo1, pr.n - 1)
            && Residue(MixCols(pr, g)[0], hi2, pr.M()) && Residue(g.mixA - 1, lo2, pr.M() - 1)
  {
    hide IsPrime, Residue, IsField;
    var pr, draw := ag.pr, ag.draws(id);
    ColsDistinct(pr, GenOf(ag, id));
    HalfWords(draw.rv1, hi1, lo1);
    HalfWords(draw.rv2, hi2, lo2);
    ResidueIs(hi1, pr.n);
    ResidueIs(lo1, pr.n - 1);
    ResidueIs(hi2, pr.M());
    ResidueIs(lo2, pr.M() - 1);
  }

  lemma HalfWords(rv: nat, hi: nat, lo: nat)
    requires lo < 0x1_0000 && rv == hi * 0x1_0000 + lo
    ensures rv / 0x1_0000 == hi && rv % 0x1_0000 == lo
  {}

  /** Every first column and every stride is drawn by some 32-bit words, whatever the weight. */
  lemma EveryRowIsDrawn(pr: Params, weight: Weight, x0: nat, a: nat, mixX0: nat, mixA: nat) returns (draw: Draw)
    requires pr.Valid() && x0 < pr.n && 1 <= a < pr.n && mixX0 < pr.M() && 1 <= mixA < pr.M()
    ensures draw.weight == weight && draw.rv1 < 0x1_0000_0000 && draw.rv2 < 0x1_0000_0000
    ensures var g := RowFor(pr, draw);
            g.x0 == PeelCols(pr, g)[0] == x0 && g.a == a && g.mixX0 == MixCols(pr, g)[0] == mixX0 && g.mixA == mixA
  {
    hide IsPrime;
    draw := Draw(weight, x0 * 0x1_0000 + a - 1, mixX0 * 0x1_0000 + mixA - 1);
    HalfWords(draw.rv1, x0, a - 1);
    HalfWords(draw.rv2, mixX0, mixA - 1);
    ModSelf(x0, pr.n);
    ModSelf(a - 1, pr.n - 1);
    ModSelf(mixX0, pr.M());
    ModSelf(mixA - 1, pr.M() - 1);
  }

  lemma ModSelf(x: nat, m: nat)
    requires x < m
    ensures x % m == x
  {}

  /** The check equation of a row, and the block sent for it, sums exactly that many peel and mix columns. */
  lemma RowWeight(pr: Params, g: RowGen)
    requires pr.Valid() && RowOk(pr, g)
    ensures |set c | 0 <= c < pr.n && RowVec(pr, g)[c]| == g.weight
    ensures |set c | pr.n <= c < pr.n + pr.M() && RowVec(pr, g)[c]| == 3
    ensures forall c :: c in PeelCols(pr, g) ==> RowVec(pr, g)[c]
    ensures forall c :: c in MixCols(pr, g) ==> RowVec(pr, g)[pr.n + c]
  {
    hide IsPrime, RowOk, Params.Valid, PeelCols, MixCols;
    ColsDistinct(pr, g);
    PeelWeight(pr, g);
    MixWeight(pr, g);
  }

  lemma PeelWeight(pr: Params, g: RowGen)
    requires RowOk(pr, g) && Distinct(PeelCols(pr, g))
    ensures |set c | 0 <= c < pr.n && RowVec(pr, g)[c]| == g.weight
  {
    hide RowOk, PeelCols, MixCols;
    var columns := set c | 0 <= c < pr.n && RowVec(pr, g)[c];
    assert forall c :: c in PeelCols(pr, g) <==> c in columns;
    DistinctSize(PeelCols(pr, g), columns);
  }

  lemma MixWeight(pr: Params, g: RowGen)
    requires RowOk(pr, g) && Distinct(MixCols(pr, g))
    ensures |set c | pr.n <= c < pr.n + pr.M() && RowVec(pr, g)[c]| == 3
  {
    hide RowOk, PeelCols, MixCols;
    var mix := MixCols(pr, g);
    var columns := set c | pr.n <= c < pr.n + pr.M() && RowVec(pr, g)[c];
    var above := [pr.n + mix[0], pr.n + mix[1], pr.n + mix[2]];
    assert mix[0] != mix[1] && mix[0] != mix[2] && mix[1] != mix[2];
    forall c ensures c in above <==> c in columns {
      if c in columns {
        assert c - pr.n in mix;
      }
    }
    DistinctSize(above, columns);
  }

  // ---- Heavy rows ----

  lemma {:induction false} HeavyAt(hc: nat, i: nat)
    ensures HeavyPos(hc, i) == i * ((hc + 3) / 4)
  {
    if i > 0 {
      HeavyAt(hc, i - 1);
      assert (i - 1) * ((hc + 3) / 4) + (hc + 3) / 4 == i * ((hc + 3) / 4);
    }
  }

  /** A byte as a number is what is left of the word modulo 256. */
  lemma NumberOf(x: nat)
    ensures Number(ByteOf(x)) == x % 256
  {
    hide ByteOf, Number;
    ByteOfLow(x % 256, x / 256);
    NumberOfSmall(x % 256);
  }

  lemma NumberOfSmall(x: nat)
    requires x < 256
    ensures Number(ByteOf(x)) == x
  {
    hide Half, Join;
    HalfDown(x, 0);
    HalfDown(x, 1);
    HalfDown(x, 2);
    HalfDown(x, 3);
    HalfDown(x, 4);
    HalfDown(x, 5);
    HalfDown(x, 6);
    HalfDown(x, 7);
    SmallGone(x);
  }

  lemma {:induction false} HalfDown(x: nat, k: nat)
    ensures Half(x, k) == Join(BitOf(x, k), Half(x, k + 1)) && Half(x, 0) == x
  {
    if k == 0 {
      assert Half(x, 1) == Half(x / 2, 0) == x / 2;
    } else {
      HalfDown(x / 2, k - 1);
    }
  }

  lemma SmallGone(x: nat)
    requires x < 256
    ensures Half(x, 8) == 0
  {
    HalfStep(x, 0);
  }

  /** Each word of a heavy row fills four columns with its bytes, lowest first; the last columns are the identity. */
  lemma HeavyRowIs(stream: nat -> nat, hc: nat, i: nat, c: nat)
    requires c < hc
    ensures var b, rv := HeavyRow(stream, hc, i)[c], stream(i * ((hc + 3) / 4) + c / 4);
            if c + CAT_HEAVY_ROWS < hc then
              && (c % 4 == 0 ==> Number(b) == rv % 0x100)
              && (c % 4 == 1 ==> Number(b) == rv / 0x100 % 0x100)
              && (c % 4 == 2 ==> Number(b) == rv / 0x1_0000 % 0x100)
              && (c % 4 == 3 ==> Number(b) == rv / 0x100_0000 % 0x100)
            else b == if c + CAT_HEAVY_ROWS - hc == i then ONE else ZERO
  {
    hide Number, ByteOf;
    HeavyAt(hc, i);
    var rv := stream(HeavyPos(hc, i) + c / 4);
    HalfBytes(rv);
    NumberOf(Half(rv, 8 * (c % 4)));
  }

  lemma HalfBytes(x: nat)
    ensures Half(x, 0) == x && Half(x, 8) == x / 0x100 && Half(x, 16) == x / 0x1_0000 && Half(x, 24) == x / 0x100_0000
  {
    HalfStep(x, 0);
    HalfStep(x, 8);
    HalfStep(x / 256, 0);
    HalfStep(x, 16);
    HalfStep(x / 256, 8);
    HalfStep(x / 256 / 256, 0);
    assert x / 256 / 256 == x / 0x1_0000;
    assert x / 256 / 256 / 256 == x / 0x100_0000;
  }
}
