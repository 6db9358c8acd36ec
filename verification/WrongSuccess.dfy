/** A second solve that succeeds on rows that determine nothing: for every field, every pair of selector words and every
    dense stream there are words for the other two streams with which it does (src/fec/Wirehair.cpp:5609-5637). */
module WrongSuccess {
  import opened ColumnIterator
  import opened CheckMatrix
  import opened PeelOutcome
  import opened Blocks
  import opened Compression
  import opened Dense
  import opened DensePass
  import opened GaloisField
  import opened HeavyWindow
  import opened Elimination
  import opened Solving
  import opened Triangle
  import opened CheckSystem
  import opened Recovery
  import opened Staging
  import opened Solver
  import opened Codec
  import opened Retry

  // ---- What the dense pass makes of two blocks, of which one came twice ----

  /** With n == 2 and both rows g, whose one column is solved: its coefficient becomes g's mix columns, and the other
      column's falls on elimination column 0. */
  ghost function Misread(pr: Params, g: RowGen, v: Bits): (r: Bits)
    requires pr.n == 2 && RowOk(pr, g) && |v| == pr.n + pr.M()
    ensures |r| == pr.M()
  {
    seq(pr.M(), j requires 0 <= j < pr.M() =>
      ((v[pr.n + j] != (v[g.x0] && j in MixCols(pr, g))) != (j == 0 && v[1 - g.x0])))
  }

  lemma TwoColumns(pr: Params, oc: Outcome, g: RowGen)
    requires OutcomeOk(pr, oc) && pr.n == 2 && oc.gens == [g, g] && oc.order != []
    ensures RowOk(pr, g) && oc.solved == [g.x0] && oc.deferCols == [1 - g.x0] && |oc.order| == 1 && oc.order[0] < 2
  {
    hide IsPrime;
    assert oc.gens[0] == g && oc.gens[1] == g;
    assert PeelCols(pr, g) == [g.x0];
    forall i | 0 <= i < |oc.order| ensures oc.solved[i] == g.x0 {
      assert Lowest(pr, oc, i);
    }
    forall c | c in oc.solved ensures c == g.x0 {
      var i :| 0 <= i < |oc.solved| && oc.solved[i] == c;
    }
    assert (1 - g.x0) in oc.deferCols;
    var all := oc.solved + oc.deferCols;
    var elems := set c | c in all;
    DistinctSize(all, elems);
    SubsetSize(elems, Below(pr.n));
  }

  lemma ReduceOne(gr: Graph, v: Bits)
    requires GraphOk(gr) && |gr.order| == 1 && |v| == gr.width
    ensures Reduce(gr, v, 1)
              == XorBits(Pull(v, gr.colMap), PickBits(v[gr.solved[0]], Pull(gr.vecs[gr.order[0]], gr.colMap)))
  {
    hide Pull, XorBits, PickBits;
    assert Reduce(gr, v, 0) == Pull(v, gr.colMap);
    assert Reduce(gr, gr.vecs[gr.order[0]], 0) == Pull(gr.vecs[gr.order[0]], gr.colMap);
  }

  lemma LostShape(pr: Params, oc: Outcome, g: RowGen)
    requires OutcomeOk(pr, oc) && pr.n == 2 && oc.gens == [g, g] && oc.order != []
    ensures RowOk(pr, g)
    ensures var gr := LostGraph(pr, oc, Zeros(pr.n));
      && GraphOk(gr) && gr.width == pr.n + pr.M() && |gr.order| == 1 && gr.solved[0] == g.x0 && |gr.colMap| == pr.M()
      && (forall j :: 0 <= j < pr.M() ==> gr.colMap[j] == pr.n + j) && gr.vecs[gr.order[0]] == RowVec(pr, g)
  {
    hide RowOk, Lowest, RowVec, IsPrime;
    StageIsOk(pr, oc, Zeros(pr.n), true);
    TwoColumns(pr, oc, g);
  }

  lemma MixBits(pr: Params, g: RowGen)
    requires RowOk(pr, g)
    ensures forall j :: 0 <= j < pr.M() ==> RowVec(pr, g)[pr.n + j] == (j in MixCols(pr, g))
  {
    hide RowOk, PeelCols, MixCols;
  }

  lemma MisreadIs(pr: Params, oc: Outcome, g: RowGen, v: Bits)
    requires OutcomeOk(pr, oc) && pr.n == 2 && oc.gens == [g, g] && oc.order != [] && |v| == pr.n + pr.M()
    ensures GraphOk(LostGraph(pr, oc, Zeros(pr.n))) && RowOk(pr, g)
    ensures Image(LostGraph(pr, oc, Zeros(pr.n)), oc.deferCols, v) == Misread(pr, g, v)
  {
    hide RowOk, PeelCols, MixCols, Reduce, OutcomeOk, LostGraph, RowVec;
    LostShape(pr, oc, g);
    TwoColumns(pr, oc, g);
    MixBits(pr, g);
    var gr := LostGraph(pr, oc, Zeros(pr.n));
    ReduceOne(gr, v);
    var a, b := Image(gr, oc.deferCols, v), Misread(pr, g, v);
    forall j | 0 <= j < pr.M() ensures a[j] == b[j] {
      assert gr.colMap[j] == pr.n + j;
    }
  }

  // ---- A stream with given invertible bits ----

  /** The low n bits of a word, from bit base of row i on. */
  ghost function WordOf(want: (nat, nat) -> bool, i: nat, base: nat, n: nat): nat
    decreases n
  {
    if n == 0 then 0 else Join(want(i, base), WordOf(want, i, base + 1, n - 1))
  }

  lemma {:induction false} WordBit(want: (nat, nat) -> bool, i: nat, base: nat, n: nat, b: nat)
    requires b < n
    ensures BitOf(WordOf(want, i, base, n), b) == want(i, base + b)
    decreases n
  {
    hide BitOf, Join;
    JoinBit(want(i, base), WordOf(want, i, base + 1, n - 1));
    if b > 0 {
      WordBit(want, i, base + 1, n - 1, b - 1);
      assert BitOf(WordOf(want, i, base, n), (b - 1) + 1) == BitOf(WordOf(want, i, base + 1, n - 1), b - 1);
    }
  }

  /** The stream words of one row of the matrix. */
  function RowWords(d: nat): (w: nat)
    ensures d > 0 ==> w > 0
  {
    2 * ((d + 63) / 64)
  }

  ghost function StreamWord(want: (nat, nat) -> bool, w: nat, p: nat): nat
    requires w > 0
  {
    WordOf(want, p / w, 32 * (p % w), 32)
  }

  ghost function StreamOf(want: (nat, nat) -> bool, d: nat): nat -> nat
    requires d > 0
  {
    var w := RowWords(d);
    (p: nat) => StreamWord(want, w, p)
  }

  lemma {:induction false} PosIs(d: nat, i: nat)
    ensures InvertiblePos(d, i) == i * RowWords(d)
  {
    if i > 0 {
      PosIs(d, i - 1);
      assert i * RowWords(d) == (i - 1) * RowWords(d) + RowWords(d);
    }
  }

  lemma WordPlace(d: nat, j: nat)
    requires j < d
    ensures var k := 2 * (j / 64) + (j % 64) / 32; k < RowWords(d) && 32 * k + j % 32 == j
  {
    assert j / 64 < (d + 63) / 64;
  }

  lemma RowOfWord(w: nat, i: nat, k: nat)
    requires k < w
    ensures (i * w + k) / w == i && (i * w + k) % w == k
  {
    QuotientUnique(w, i, k, (i * w + k) / w, (i * w + k) % w);
  }

  lemma StreamBit(want: (nat, nat) -> bool, d: nat, i: nat, j: nat)
    requires 0 < d < 512 && j < d
    ensures InvertibleBit(StreamOf(want, d), d, i, j) == want(i, j)
  {
    hide BitOf, WordOf, RowWords;
    var w, k := RowWords(d), 2 * (j / 64) + (j % 64) / 32;
    PosIs(d, i);
    WordPlace(d, j);
    RowOfWord(w, i, k);
    WordBit(want, i, 32 * k, 32, j % 32);
  }

  // ---- The streams ----

  /** The invertible bits that turn the misread dense rows into the identity on the first d columns. */
  ghost predicate WantedBit(pr: Params, g: RowGen, dense: nat -> nat, rho: nat, j: nat)
    requires pr.n == 2 && 0 < pr.d && RowOk(pr, g)
  {
    rho < pr.d && j < pr.d && (Misread(pr, g, DenseRow(dense, pr.d, pr.n, pr.n + pr.M(), rho))[j] != (rho == j))
  }

  ghost function TrapSeeds(pr: Params, g: RowGen, dense: nat -> nat): Seeds
    requires pr.n == 2 && 0 < pr.d && RowOk(pr, g)
  {
    Seeds(dense, p => 0, StreamOf((rho: nat, j: nat) => WantedBit(pr, g, dense, rho, j), pr.d))
  }

  lemma TrapRow(pr: Params, g: RowGen, dense: nat -> nat, oc: Outcome, rho: nat, j: nat)
    requires OutcomeOk(pr, oc) && pr.n == 2 && oc.gens == [g, g] && oc.order != [] && rho < pr.d && j < pr.d
    ensures RowOk(pr, g) && StageOk(pr, StageOf(pr, oc, Zeros(pr.n), true))
    ensures LightRow(pr, TrapSeeds(pr, g, dense), StageOf(pr, oc, Zeros(pr.n), true), rho)[j] == (rho == j)
  {
    hide Image, Misread, InvertibleBit, DenseRow, RowOk, StageOk, StreamOf, RowVec, OutcomeOk;
    StageIsOk(pr, oc, Zeros(pr.n), true);
    StageSizes(pr, oc);
    assert oc.gens[0] == g;
    var seeds, st := TrapSeeds(pr, g, dense), StageOf(pr, oc, Zeros(pr.n), true);
    MisreadIs(pr, oc, g, DenseRow(dense, pr.d, pr.n, pr.n + pr.M(), rho));
    StreamBit((rho: nat, j: nat) => WantedBit(pr, g, dense, rho, j), pr.d, rho, j);
  }

  lemma StageSizes(pr: Params, oc: Outcome)
    requires OutcomeOk(pr, oc)
    ensures pr.Valid() && forall r :: 0 <= r < |oc.gens| ==> RowOk(pr, oc.gens[r])
    ensures var st := StageOf(pr, oc, Zeros(pr.n), true); st.gr.width == pr.n + pr.M() && |st.gr.colMap| == pr.M()
  {
    hide RowVec, Lowest, IsPrime, Distinct;
  }

  lemma NoHeavyBits(hc: nat, i: nat, c: nat)
    requires c < hc
    ensures HeavyRow(p => 0, hc, i)[c] == if c + CAT_HEAVY_ROWS >= hc && c + CAT_HEAVY_ROWS - hc == i then ONE else ZERO
  {
    hide BitOf;
    HalfZero(8 * (c % 4));
    forall k: nat ensures !BitOf(0, k) {
      NoBit(k);
    }
  }

  lemma {:induction false} HalfZero(k: nat)
    ensures Half(0, k) == 0
  {
    if k > 0 {
      HalfZero(k - 1);
    }
  }

  lemma NoBit(k: nat)
    ensures !BitOf(0, k)
  {
    HalfZero(k);
  }

  // ---- The matrix is regular ----

  /** A row with a one in one column, and nothing that weighs in any other. */
  lemma {:induction false} OneTerm(f: Tables, row: Row, xs: seq<Block>, k: nat, c: nat)
    requires IsField(f) && k <= |row| && k <= |xs| && c < |row| && c < |xs| && row[c] == ONE
    requires forall j :: 0 <= j < k && j != c ==> row[j] == ZERO || xs[j] == Zero()
    ensures RowDot(f, row, xs, k) == if c < k then xs[c] else Zero()
  {
    hide IsField, Scale, Add, Zero;
    if k > 0 {
      OneTerm(f, row, xs, k - 1, c);
      ScaleUnits(f, row[k - 1], xs[k - 1]);
      AddZero(xs[k - 1]);
      AddZero(if c < k - 1 then xs[c] else Zero());
    }
  }

  lemma TrapRegular(pr: Params, f: Tables, g: RowGen, dense: nat -> nat, oc: Outcome, extra: nat)
    requires IsField(f) && OutcomeOk(pr, oc) && pr.n == 2 && oc.gens == [g, g] && oc.order != []
    ensures RowOk(pr, g) && !RetryFails(pr, f, TrapSeeds(pr, g, dense), oc, extra)
  {
    hide IsField, OutcomeOk, RowDot, RowOk, TrapSeeds, LightRow, HeavyRow, RowVec;
    StageSizes(pr, oc);
    StageIsOk(pr, oc, Zeros(pr.n), true);
    assert oc.gens[0] == g;
    var seeds, st, n := TrapSeeds(pr, g, dense), StageOf(pr, oc, Zeros(pr.n), true), pr.M();
    var a := RetryMatrix(pr, seeds, oc, extra);
    if Rectangular(a, n) {
      if k, xs: seq<Block> :| 0 <= k < n && |xs| == n && xs[k] == Ones() && Annihilates(f, a, n, xs) {
        HeavyKills(pr, f, g, dense, oc, extra, xs);
        LightKills(pr, f, g, dense, oc, extra, xs);
        OnesNotZero();
      }
    }
  }

  lemma HeavyUnit(pr: Params, i: nat)
    requires i < CAT_HEAVY_ROWS
    ensures var n, hc := pr.M(), HeavyColumns(pr);
      var row := ZeroRow(n - hc) + HeavyRow(p => 0, hc, i);
      |row| == n && forall c :: 0 <= c < n ==> row[c] == if c == pr.d + i then ONE else ZERO
  {
    hide HeavyRow;
    var n, hc := pr.M(), HeavyColumns(pr);
    var row := ZeroRow(n - hc) + HeavyRow(p => 0, hc, i);
    forall c | 0 <= c < n ensures row[c] == if c == pr.d + i then ONE else ZERO {
      if c >= n - hc {
        NoHeavyBits(hc, i, c - (n - hc));
      }
    }
  }

  /** The heavy rows leave nothing in the last columns. */
  lemma HeavyKills(pr: Params, f: Tables, g: RowGen, dense: nat -> nat, oc: Outcome, extra: nat, xs: seq<Block>)
    requires IsField(f) && OutcomeOk(pr, oc) && pr.n == 2 && oc.gens == [g, g]
    requires oc.order != [] && |xs| == pr.M() && RowOk(pr, g)
    requires var a := RetryMatrix(pr, TrapSeeds(pr, g, dense), oc, extra);
      Rectangular(a, pr.M()) && Annihilates(f, a, pr.M(), xs)
    ensures forall j :: pr.d <= j < pr.M() ==> xs[j] == Zero()
  {
    hide IsField, OutcomeOk, RowDot, RowOk, LightBits, HeavyRow, RowVec, StageOk, DenseRow, StreamOf;
    StageSizes(pr, oc);
    StageIsOk(pr, oc, Zeros(pr.n), true);
    var seeds, n, hc := TrapSeeds(pr, g, dense), pr.M(), HeavyColumns(pr);
    var bits := LightBits(pr, seeds, StageOf(pr, oc, Zeros(pr.n), true));
    var a := RetryMatrix(pr, seeds, oc, extra);
    forall j | pr.d <= j < n ensures xs[j] == Zero() {
      var i := j - pr.d;
      FullAt(bits, GeHeavy(pr, seeds, extra), n - hc, 0, extra + i);
      var row := a[pr.d + extra + i];
      assert row == ZeroRow(n - hc) + HeavyRow(p => 0, hc, i);
      HeavyUnit(pr, i);
      OneTerm(f, row, xs, n, j);
    }
  }

  /** And then the dense rows leave nothing in the others. */
  lemma LightKills(pr: Params, f: Tables, g: RowGen, dense: nat -> nat, oc: Outcome, extra: nat, xs: seq<Block>)
    requires IsField(f) && OutcomeOk(pr, oc) && pr.n == 2 && oc.gens == [g, g]
    requires oc.order != [] && |xs| == pr.M() && RowOk(pr, g)
    requires var a := RetryMatrix(pr, TrapSeeds(pr, g, dense), oc, extra);
      Rectangular(a, pr.M()) && Annihilates(f, a, pr.M(), xs)
    requires forall j :: pr.d <= j < pr.M() ==> xs[j] == Zero()
    ensures forall j :: 0 <= j < pr.d ==> xs[j] == Zero()
  {
    hide IsField, OutcomeOk, RowDot, RowOk, LightRow, HeavyRow, RowVec, StageOk, TrapSeeds;
    StageSizes(pr, oc);
    StageIsOk(pr, oc, Zeros(pr.n), true);
    var seeds, n, hc, st := TrapSeeds(pr, g, dense), pr.M(), HeavyColumns(pr), StageOf(pr, oc, Zeros(pr.n), true);
    var bits := LightBits(pr, seeds, st);
    var a := RetryMatrix(pr, seeds, oc, extra);
    forall j | 0 <= j < pr.d ensures xs[j] == Zero() {
      FullAt(bits, GeHeavy(pr, seeds, extra), n - hc, j, 0);
      var row := a[j];
      assert row == Lift(LightRow(pr, seeds, st, j));
      forall c | 0 <= c < pr.d ensures row[c] == if c == j then ONE else ZERO {
        TrapRow(pr, g, dense, oc, j, c);
      }
      OneTerm(f, row, xs, n, j);
    }
  }

  /** The run: block 0 twice, the solve fails, block 1 is dropped, and the second solve succeeds. */
  method WrongRun(ag: Agreement, x: Block, y: Block, z: Block, workspace: seq<Block>)
    returns (d: Decoder, status: Status)
    requires ag.Valid() && ag.pr.n == 2 && |workspace| == ag.pr.n + ag.pr.M() + 1
    requires 0 < ag.pr.d && ag.seeds == TrapSeeds(ag.pr, GenOf(ag, 0), ag.seeds.dense)
    ensures fresh(d) && d.ag == ag && d.ids == [0, 0] && d.inputs == [x, y]
    ensures status == Success && !Determined(ag, d.ids, d.inputs)
  {
    hide Params.Valid, IsField, RowOk, OutcomeOk, Determined, RetryFails, TrapSeeds, RowFor;
    var first;
    d, first, status := LosingRun(ag, x, y, z, workspace);
    TrapRegular(ag.pr, ag.f, GenOf(ag, 0), ag.seeds.dense, d.outcome, CAT_MAX_EXTRA_ROWS);
  }
}
