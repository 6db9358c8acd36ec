/** Parameters and row generator of the Wirehair check matrix (src/fec/Wirehair.cpp,
    include/cat/fec/WirehairDetails.hpp). */
module CheckMatrix {
  import opened ColumnIterator

  const CAT_REF_LIST_MAX: nat := 32
  const CAT_HEAVY_ROWS: nat := 6
  const CAT_HEAVY_MAX_COLS: nat := 18
  const CAT_MAX_EXTRA_ROWS: nat := 32
  const LIST_TERM: nat := 0xFFFF

  /** One generated row: its column counts and the two Weyl generators. */
  datatype RowGen = RowGen(weight: nat, a: nat, x0: nat, mixA: nat, mixX0: nat)

  /** n = _block_count, p = _block_next_prime, d = _dense_count, q = _mix_next_prime. */
  datatype Params = Params(n: nat, p: nat, d: nat, q: nat) {
    function M(): nat { d + CAT_HEAVY_ROWS }

    ghost predicate Valid() {
      && 2 <= n <= 64000
      && n <= p < 0x1_0000 && IsPrime(p)
      && 2 <= d <= 486
      && M() <= q < 0x1_0000 && IsPrime(q)
    }
  }

  predicate RowOk(pr: Params, g: RowGen) {
    && Stride(g.a, pr.n, pr.p) && g.x0 < pr.n
    && Stride(g.mixA, pr.M(), pr.q) && g.mixX0 < pr.M()
    && 1 <= g.weight <= pr.n / 2
  }

  /** GeneratePeelRow on the three words it draws; the first has already been mapped to a raw weight. */
  function GeneratePeelRow(pr: Params, rawWeight: nat, rv1: nat, rv2: nat): (g: RowGen)
    requires pr.Valid() && rawWeight >= 1
    ensures RowOk(pr, g)
  {
    var maxWeight := pr.n / 2;
    RowGen(if rawWeight > maxWeight then maxWeight else rawWeight,
           (rv1 % 0x1_0000) % (pr.n - 1) + 1,
           (rv1 / 0x1_0000) % pr.n,
           (rv2 % 0x1_0000) % (pr.M() - 1) + 1,
           (rv2 / 0x1_0000) % pr.M())
  }

  type Weight = w: nat | 1 <= w witness 1

  /** What a row id draws: the raw weight the distribution table maps its first word to, and two selector words. */
  datatype Draw = Draw(weight: Weight, rv1: nat, rv2: nat)

  function RowFor(pr: Params, draw: Draw): (g: RowGen)
    requires pr.Valid()
    ensures RowOk(pr, g)
  {
    GeneratePeelRow(pr, draw.weight, draw.rv1, draw.rv2)
  }

  function PeelCols(pr: Params, g: RowGen): (s: seq<nat>)
    requires RowOk(pr, g)
    ensures |s| == g.weight && s[0] == g.x0
    ensures forall i :: 0 <= i < |s| ==> s[i] < pr.n
  {
    Columns(g.x0, g.a, pr.n, pr.p, g.weight)
  }

  function MixCols(pr: Params, g: RowGen): (s: seq<nat>)
    requires RowOk(pr, g)
    ensures |s| == 3 && s[0] == g.mixX0
    ensures forall i :: 0 <= i < |s| ==> s[i] < pr.M()
  {
    Columns(g.mixX0, g.mixA, pr.M(), pr.q, 3)
  }

  lemma ColsDistinct(pr: Params, g: RowGen)
    requires pr.Valid() && RowOk(pr, g)
    ensures Distinct(PeelCols(pr, g)) && Distinct(MixCols(pr, g))
  {
    hide IsPrime;
    ColumnsDistinct(g.x0, g.a, pr.n, pr.p, g.weight);
    ColumnsDistinct(g.mixX0, g.mixA, pr.M(), pr.q, 3);
  }

  /** Stepping the iterator from the i-th peel column gives the next one. */
  lemma PeelColsStep(pr: Params, g: RowGen, i: nat)
    requires RowOk(pr, g) && i + 1 < g.weight
    ensures PeelCols(pr, g)[i + 1] == NextColumn(PeelCols(pr, g)[i], g.a, pr.n, pr.p)
  {
    ColumnsStep(g.x0, g.a, pr.n, pr.p, g.weight, i);
  }
}
