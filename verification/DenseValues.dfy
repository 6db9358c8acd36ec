/** MultiplyDenseValues: the second walk over the implied dense matrix, this time over blocks (src/fec/Wirehair.cpp). */
module DenseValues {
  import opened ColumnIterator
  import opened CheckMatrix
  import opened PeelState
  import opened Blocks
  import opened Compression
  import opened Shuffle
  import opened Dense
  import opened DensePass
  import opened Compressing
  import opened ColumnValues

  /** Where the sum of a first row is so far: nowhere, still in one column's block, or in the temporary block. */
  datatype Combo = Unused | Source(column: nat) | InTemp

  function ComboValue(combo: Combo, recovery: seq<Block>, temp: Block): Block
    requires combo.Source? ==> combo.column < |recovery|
  {
    match combo
    case Unused => Zero()
    case Source(c) => recovery[c]
    case InTemp => temp
  }

  ghost function RowValue(gr: Graph, v: Bits): Block
    requires GraphOk(gr) && |v| == gr.width
  {
    ReduceValue(gr, v, Zero(), |gr.order|)
  }

  /** Bit x of the window at base is a peeled column. */
  predicate PeeledBit(cols: seq<PeelColumn>, n: nat, base: nat, x: nat)
    requires n <= |cols|
  {
    base + x < n && cols[base + x].mark == Solved
  }

  lemma FlipValueBit(gr: Graph, n: nat, cols: seq<PeelColumn>, recovery: seq<Block>, v: Bits, base: nat, x: nat)
    requires TempsHeld(gr, n, cols, recovery) && |v| == gr.width
    ensures n <= |cols| && n <= |recovery| && GraphOk(gr)
    ensures RowValue(gr, FlipBit(v, base, n, x)) ==
            if PeeledBit(cols, n, base, x) then Add(RowValue(gr, v), recovery[base + x]) else RowValue(gr, v)
  {
    hide Add, ReduceValue, TempsHeld, Toggle;
    TempsCols(gr, n, cols, recovery);
    if base + x < n {
      ColumnValue(gr, n, cols, recovery, base + x);
      ToggleValue(gr, v, Zero(), base + x);
      AddZero(RowValue(gr, v));
    }
  }

  lemma TempsCols(gr: Graph, n: nat, cols: seq<PeelColumn>, recovery: seq<Block>)
    requires TempsHeld(gr, n, cols, recovery)
    ensures GraphOk(gr) && n <= |cols| && n <= |recovery| && n <= gr.width
  {}

  /** Adds one more column's block to the sum, copying as little as possible. */
  method Combine(combo: Combo, temp: Block, recovery: seq<Block>, column: nat) returns (combo': Combo, temp': Block)
    requires column < |recovery| && (combo.Source? ==> combo.column < |recovery|)
    ensures combo' != Unused && (combo'.Source? ==> combo'.column < |recovery|)
    ensures ComboValue(combo', recovery, temp') == Add(ComboValue(combo, recovery, temp), recovery[column])
  {
    hide Add;
    combo', temp' := InTemp, temp;
    match combo {
      case Unused =>
        AddZero(recovery[column]);
        combo' := Source(column);
      case InTemp =>
        temp' := Add(temp, recovery[column]);
      case Source(c) =>
        temp' := Add(recovery[c], recovery[column]);
    }
  }

  lemma NothingValue(gr: Graph, recovery: seq<Block>, temp: Block)
    requires GraphOk(gr)
    ensures ComboValue(Unused, recovery, temp) == RowValue(gr, NoBits(gr.width))
  {
    hide ReduceValue, Reduce;
    ReduceNothing(gr);
  }

  lemma ComboEnd(combo: Combo, recovery: seq<Block>, temp: Block)
    requires combo.Source? ==> combo.column < |recovery|
    ensures combo == Unused ==> ComboValue(combo, recovery, temp) == Zero()
  {}

  /** The first row of a window, and whether it summed any block. */
  method FirstValue(comp: Compressor, bits: array<nat>, base: nat, ghost gr: Graph, ghost dk: Decks)
    returns (temp: Block, any: bool)
    requires TempsHeld(gr, comp.pr.n, comp.peel.cols, comp.recovery)
    requires 0 < comp.pr.d <= bits.Length && DecksOk(dk, comp.pr.d) && bits[..comp.pr.d] == dk.bits1
    requires GraphOk(gr)
    ensures temp == RowValue(gr, WindowRow(dk, comp.pr.d, base, comp.pr.n, gr.width, 0)) && (!any ==> temp == Zero())
  {
    hide TempsHeld, RowValue, FlipBit, Add, Zero, ReduceValue, ComboValue;
    TempsCols(gr, comp.pr.n, comp.peel.cols, comp.recovery);
    temp := Zero();
    var combo := Unused;
    NothingValue(gr, comp.recovery, temp);
    for k := 0 to (comp.pr.d + 1) / 2
      invariant combo.Source? ==> combo.column < |comp.recovery|
      invariant ComboValue(combo, comp.recovery, temp)
                  == RowValue(gr, FirstRow(dk, comp.pr.d, base, comp.pr.n, gr.width, k))
    {
      assert bits[k] == dk.bits1[k];
      FlipValueBit(gr, comp.pr.n, comp.peel.cols, comp.recovery, FirstRow(dk, comp.pr.d, base, comp.pr.n, gr.width, k),
                   base, bits[k]);
      if PeeledBit(comp.peel.cols, comp.pr.n, base, bits[k]) {
        combo, temp := Combine(combo, temp, comp.recovery, base + bits[k]);
      }
    }
    any := combo != Unused;
    ComboEnd(combo, comp.recovery, temp);
    temp := ComboValue(combo, comp.recovery, temp);
  }

  /** The next row: either bit that is a peeled column adds that column's block. */
  method FlipValue(comp: Compressor, temp0: Block, base: nat, x: nat, y: nat, ghost gr: Graph, ghost v: Bits)
    returns (temp: Block)
    requires TempsHeld(gr, comp.pr.n, comp.peel.cols, comp.recovery)
    requires GraphOk(gr) && |v| == gr.width && temp0 == RowValue(gr, v)
    ensures temp == RowValue(gr, FlipBit(FlipBit(v, base, comp.pr.n, x), base, comp.pr.n, y))
  {
    hide TempsHeld, ReduceValue, FlipBit, Add;
    var cols, n := comp.peel.cols, comp.pr.n;
    FlipValueBit(gr, n, cols, comp.recovery, v, base, x);
    FlipValueBit(gr, n, cols, comp.recovery, FlipBit(v, base, n, x), base, y);
    temp := temp0;
    if PeeledBit(cols, n, base, x) {
      if PeeledBit(cols, n, base, y) {
        temp := Add(Add(temp, comp.recovery[base + x]), comp.recovery[base + y]);
      } else {
        temp := Add(temp, comp.recovery[base + x]);
      }
    } else if PeeledBit(cols, n, base, y) {
      temp := Add(temp, comp.recovery[base + y]);
    }
  }

  /** Destinations of the dense rows: distinct elimination columns. */
  ghost predicate DestOk(gr: Graph, dest: seq<nat>, d: nat, size: nat) {
    && |dest| == d && Distinct(dest)
    && (forall rho :: 0 <= rho < d ==> dest[rho] < size && dest[rho] != LIST_TERM && dest[rho] !in gr.solved)
  }

  /** Dense rows whose place in the window's row order is before t have this window's value added at their column. */
  ghost predicate ValuesDone(gr: Graph, dk: Decks, d: nat, base: nat, n: nat, dest: seq<nat>, rec: seq<Block>,
                             rec': seq<Block>, t: nat)
    requires GraphOk(gr)
  {
    && DecksOk(dk, d) && t <= d && |rec'| == |rec| && DestOk(gr, dest, d, |rec|)
    && (forall k :: 0 <= k < d ==>
          rec'[dest[dk.rows[k]]] == if k < t then
                                      Add(rec[dest[dk.rows[k]]], RowValue(gr, WindowRow(dk, d, base, n, gr.width, k)))
                                    else rec[dest[dk.rows[k]]])
    && (forall x :: 0 <= x < |rec| && x !in dest ==> rec'[x] == rec[x])
  }

  lemma ValuesNext(gr: Graph, dk: Decks, d: nat, base: nat, n: nat, dest: seq<nat>, rec: seq<Block>, rec': seq<Block>,
                   t: nat)
    requires GraphOk(gr) && t < d && ValuesDone(gr, dk, d, base, n, dest, rec, rec', t)
    ensures dk.rows[t] < |dest| && dest[dk.rows[t]] < |rec'| && dest[dk.rows[t]] != LIST_TERM
    ensures ValuesDone(gr, dk, d, base, n, dest, rec,
              rec'[dest[dk.rows[t]] := Add(rec'[dest[dk.rows[t]]],
                                           RowValue(gr, WindowRow(dk, d, base, n, gr.width, t)))], t + 1)
  {
    hide RowValue, Add, WindowRow, GraphOk;
    var x := dest[dk.rows[t]];
    forall k | 0 <= k < d && k != t ensures dest[dk.rows[k]] != x {
      assert dk.rows[k] != dk.rows[t];
    }
    assert x in dest;
  }

  // A row whose value is zero needs no store.
  lemma ValuesSkip(gr: Graph, dk: Decks, d: nat, base: nat, n: nat, dest: seq<nat>, rec: seq<Block>, rec': seq<Block>,
                   t: nat)
    requires GraphOk(gr) && t < d && ValuesDone(gr, dk, d, base, n, dest, rec, rec', t)
    requires RowValue(gr, WindowRow(dk, d, base, n, gr.width, t)) == Zero()
    ensures ValuesDone(gr, dk, d, base, n, dest, rec, rec', t + 1)
  {
    hide RowValue, Add, WindowRow, GraphOk;
    AddZero(rec[dest[dk.rows[t]]]);
  }

  lemma ValuesTemps(gr: Graph, dk: Decks, d: nat, base: nat, n: nat, dest: seq<nat>, rec: seq<Block>, rec': seq<Block>,
                    t: nat, cols: seq<PeelColumn>)
    requires GraphOk(gr) && ValuesDone(gr, dk, d, base, n, dest, rec, rec', t) && TempsHeld(gr, n, cols, rec)
    ensures TempsHeld(gr, n, cols, rec')
  {
    hide RowValue, WindowRow, Apart, AllKnown;
    forall j | 0 <= j < |gr.order| ensures rec'[gr.solved[j]] == rec[gr.solved[j]] {
      assert gr.solved[j] in gr.solved;
    }
    TempsKept(gr, n, cols, rec, rec');
  }

  lemma ValuesStart(gr: Graph, dk: Decks, d: nat, base: nat, n: nat, dest: seq<nat>, rec: seq<Block>)
    requires GraphOk(gr) && DecksOk(dk, d) && DestOk(gr, dest, d, |rec|)
    ensures ValuesDone(gr, dk, d, base, n, dest, rec, rec, 0)
    ensures |dk.rows| == |dk.bits1| == |dk.bits2| == |dk.bits3| == d
  {}

  /** The rows after row t0 of a window. */
  method FlipValues(comp: Compressor, rows: array<nat>, bits: array<nat>, base: nat, t0: nat, count: nat, temp0: Block,
                    ghost gr: Graph, ghost dk: Decks, ghost flips: seq<nat>, ghost rec0: seq<Block>)
    returns (temp: Block)
    requires GraphOk(gr) && TempsHeld(gr, comp.pr.n, comp.peel.cols, rec0)
    requires comp.pr.d <= rows.Length && comp.pr.d <= bits.Length
    requires DecksOk(dk, comp.pr.d) && comp.pr.d <= |comp.rowMap|
    requires |flips| == comp.pr.d && bits[..comp.pr.d] == flips && rows[..comp.pr.d] == dk.rows
    requires t0 + count < comp.pr.d && (comp.pr.d + 1) / 2 + count <= comp.pr.d
    requires forall k :: 0 <= k < count ==>
               Flips(dk, comp.pr.d, base, comp.pr.n, gr.width, t0 + k, flips[k], flips[(comp.pr.d + 1) / 2 + k])
    requires temp0 == RowValue(gr, WindowRow(dk, comp.pr.d, base, comp.pr.n, gr.width, t0))
    requires ValuesDone(gr, dk, comp.pr.d, base, comp.pr.n, comp.rowMap[..comp.pr.d], rec0, comp.recovery, t0 + 1)
    modifies comp`recovery
    ensures temp == RowValue(gr, WindowRow(dk, comp.pr.d, base, comp.pr.n, gr.width, t0 + count))
    ensures ValuesDone(gr, dk, comp.pr.d, base, comp.pr.n, comp.rowMap[..comp.pr.d], rec0, comp.recovery,
                       t0 + count + 1)
  {
    hide TempsHeld, RowValue, Add, FlipBit, WindowRow, ValuesDone, GraphOk;
    var d, n := comp.pr.d, comp.pr.n;
    var half := (d + 1) / 2;
    ghost var dest := comp.rowMap[..d];
    temp := temp0;
    for k := 0 to count
      invariant temp == RowValue(gr, WindowRow(dk, d, base, n, gr.width, t0 + k))
      invariant ValuesDone(gr, dk, d, base, n, dest, rec0, comp.recovery, t0 + k + 1)
    {
      ghost var v := WindowRow(dk, d, base, n, gr.width, t0 + k);
      assert bits[k] == flips[k] && bits[half + k] == flips[half + k];
      ValuesTemps(gr, dk, d, base, n, dest, rec0, comp.recovery, t0 + k + 1, comp.peel.cols);
      temp := FlipValue(comp, temp, base, bits[k], bits[half + k], gr, v);
      assert Flips(dk, d, base, n, gr.width, t0 + k, flips[k], flips[half + k]);
      ValuesNext(gr, dk, d, base, n, dest, rec0, comp.recovery, t0 + k + 1);
      assert rows[t0 + k + 1] == dk.rows[t0 + k + 1] && dest[rows[t0 + k + 1]] == comp.rowMap[rows[t0 + k + 1]];
      var column := comp.rowMap[rows[t0 + k + 1]];
      if column != LIST_TERM {
        comp.recovery := comp.recovery[column := Add(comp.recovery[column], temp)];
      }
    }
  }

  /** Deals a window's decks and generates its first row. */
  method BeginValues(comp: Compressor, prng: Prng, rows: array<nat>, bits: array<nat>, base: nat, ghost gr: Graph)
    returns (temp: Block)
    requires comp.pr.d > 0 && rows.Length >= comp.pr.d && bits.Length >= comp.pr.d
    requires rows != bits && comp.pr.d <= |comp.rowMap|
    requires GraphOk(gr) && TempsHeld(gr, comp.pr.n, comp.peel.cols, comp.recovery)
    requires DestOk(gr, comp.rowMap[..comp.pr.d], comp.pr.d, |comp.recovery|)
    modifies comp`recovery, prng, rows, bits
    ensures prng.pos == old(prng.pos) + 2 * DeckWords(comp.pr.d)
    ensures var dk := WindowDecks(prng.stream, old(prng.pos), comp.pr.d);
            && DecksOk(dk, comp.pr.d) && rows[..comp.pr.d] == dk.rows
            && temp == RowValue(gr, WindowRow(dk, comp.pr.d, base, comp.pr.n, gr.width, 0))
            && ValuesDone(gr, dk, comp.pr.d, base, comp.pr.n, comp.rowMap[..comp.pr.d], old(comp.recovery),
                          comp.recovery, 1)
  {
    hide TempsHeld, RowValue, Add, Deck, DeckWords, WindowRow, ValuesDone, DecksOk, DestOk, GraphOk;
    var d := comp.pr.d;
    ghost var dk, rec0, dest := WindowDecks(prng.stream, prng.pos, d), comp.recovery, comp.rowMap[..d];
    WindowDecksOk(prng.stream, prng.pos, d);
    ValuesStart(gr, dk, d, base, comp.pr.n, dest, rec0);
    ShuffleDeck16(prng, rows, d);
    ShuffleDeck16(prng, bits, d);
    var any;
    temp, any := FirstValue(comp, bits, base, gr, dk);
    ValuesNext(gr, dk, d, base, comp.pr.n, dest, rec0, comp.recovery, 0);
    assert rows[0] == dk.rows[0] && dest[rows[0]] == comp.rowMap[rows[0]];
    if any {
      var column := comp.rowMap[rows[0]];
      if column != LIST_TERM {
        comp.recovery := comp.recovery[column := Add(comp.recovery[column], temp)];
      }
    } else {
      ValuesSkip(gr, dk, d, base, comp.pr.n, dest, rec0, comp.recovery, 0);
    }
  }

  method WindowValues(comp: Compressor, prng: Prng, rows: array<nat>, bits: array<nat>, base: nat, ghost gr: Graph)
    requires comp.pr.d > 0 && rows.Length >= comp.pr.d && bits.Length >= comp.pr.d
    requires rows != bits && comp.pr.d <= |comp.rowMap|
    requires GraphOk(gr) && TempsHeld(gr, comp.pr.n, comp.peel.cols, comp.recovery)
    requires DestOk(gr, comp.rowMap[..comp.pr.d], comp.pr.d, |comp.recovery|)
    modifies comp`recovery, prng, rows, bits
    ensures prng.pos == old(prng.pos) + 4 * DeckWords(comp.pr.d)
    ensures ValuesDone(gr, WindowDecks(prng.stream, old(prng.pos), comp.pr.d), comp.pr.d, base, comp.pr.n,
                       comp.rowMap[..comp.pr.d], old(comp.recovery), comp.recovery, comp.pr.d)
  {
    hide TempsHeld, RowValue, Add, Deck, DeckWords, WindowRow, ValuesDone, DecksOk, DestOk, GraphOk, Flips, FlipBit;
    var d, n := comp.pr.d, comp.pr.n;
    ghost var dk, rec0 := WindowDecks(prng.stream, prng.pos, d), comp.recovery;
    WindowFlips(dk, d, base, n, gr.width);
    var temp := BeginValues(comp, prng, rows, bits, base, gr);
    ShuffleDeck16(prng, bits, d);
    assert rows[..d] == dk.rows;
    temp := FlipValues(comp, rows, bits, base, 0, d / 2, temp, gr, dk, dk.bits2, rec0);
    ShuffleDeck16(prng, bits, d);
    if d > 1 {
      assert rows[..d] == dk.rows;
      temp := FlipValues(comp, rows, bits, base, d / 2, d / 2 - 1 + d % 2, temp, gr, dk, dk.bits3, rec0);
    }
  }

  /** The blocks after the first w windows: each dense row's column has the value of its row so far added. */
  ghost predicate WindowsDone(gr: Graph, stream: nat -> nat, d: nat, n: nat, w: nat, dest: seq<nat>, rec: seq<Block>,
                              rec': seq<Block>)
    requires GraphOk(gr) && 0 < d
  {
    && |rec'| == |rec| && DestOk(gr, dest, d, |rec|)
    && (forall rho :: 0 <= rho < d ==>
          rec'[dest[rho]] == Add(rec[dest[rho]], RowValue(gr, DenseVec(stream, d, n, gr.width, w, rho))))
    && (forall x :: 0 <= x < |rec| && x !in dest ==> rec'[x] == rec[x])
  }

  lemma WindowsNext(gr: Graph, stream: nat -> nat, d: nat, n: nat, w: nat, dest: seq<nat>, rec: seq<Block>,
                    rec': seq<Block>, rec'': seq<Block>)
    requires GraphOk(gr) && 0 < d && WindowsDone(gr, stream, d, n, w, dest, rec, rec')
    requires ValuesDone(gr, WindowDecks(stream, WindowPos(d, w), d), d, WindowBase(d, w), n, dest, rec', rec'', d)
    ensures WindowsDone(gr, stream, d, n, w + 1, dest, rec, rec'')
  {
    hide ReduceValue, XorBits, WindowRow, WindowDecks, Add, GraphOk;
    var dk := WindowDecks(stream, WindowPos(d, w), d);
    WindowDecksOk(stream, WindowPos(d, w), d);
    forall rho | 0 <= rho < d
      ensures rec''[dest[rho]] == Add(rec[dest[rho]], RowValue(gr, DenseVec(stream, d, n, gr.width, w + 1, rho)))
    {
      assert rho in dk.rows;
      var k := Place'(dk.rows, rho);
      var v, part := DenseVec(stream, d, n, gr.width, w, rho), WindowVec(stream, d, n, gr.width, w, rho);
      ReduceValueXor(gr, v, part, Zero(), Zero(), |gr.order|);
      AddZero(Zero());
      AddAssoc(rec[dest[rho]], RowValue(gr, v), RowValue(gr, part));
      assert rec''[dest[dk.rows[k]]]
             == Add(rec'[dest[dk.rows[k]]], RowValue(gr, WindowRow(dk, d, WindowBase(d, w), n, gr.width, k)));
    }
  }

  lemma WindowsStart(gr: Graph, stream: nat -> nat, d: nat, n: nat, dest: seq<nat>, rec: seq<Block>)
    requires GraphOk(gr) && 0 < d && DestOk(gr, dest, d, |rec|)
    ensures WindowsDone(gr, stream, d, n, 0, dest, rec, rec)
  {
    hide ReduceValue, Add, GraphOk;
    ReduceNothing(gr);
    forall rho | 0 <= rho < d ensures rec[dest[rho]] == Add(rec[dest[rho]], RowValue(gr, NoBits(gr.width))) {
      AddZero(rec[dest[rho]]);
    }
  }

  lemma WindowsTemps(gr: Graph, stream: nat -> nat, d: nat, n: nat, w: nat, dest: seq<nat>, rec: seq<Block>,
                     rec': seq<Block>, cols: seq<PeelColumn>)
    requires GraphOk(gr) && 0 < d && WindowsDone(gr, stream, d, n, w, dest, rec, rec') && TempsHeld(gr, n, cols, rec)
    ensures TempsHeld(gr, n, cols, rec') && DestOk(gr, dest, d, |rec'|)
  {
    hide RowValue, DenseVec, Apart, AllKnown;
    forall j | 0 <= j < |gr.order| ensures rec'[gr.solved[j]] == rec[gr.solved[j]] {
      assert gr.solved[j] in gr.solved;
    }
    TempsKept(gr, n, cols, rec, rec');
  }

  /** Adds to each dense row's column the value of its row of the implied dense matrix: the matrix
      MultiplyDenseRows walked. */
  method MultiplyDenseValues(comp: Compressor, stream: nat -> nat, ghost gr: Graph)
    requires comp.pr.d > 0 && comp.pr.d <= |comp.rowMap| && GraphOk(gr)
    requires TempsHeld(gr, comp.pr.n, comp.peel.cols, comp.recovery)
    requires DestOk(gr, comp.rowMap[..comp.pr.d], comp.pr.d, |comp.recovery|)
    modifies comp`recovery
    ensures |comp.recovery| == old(|comp.recovery|)
    ensures forall rho :: 0 <= rho < comp.pr.d ==>
              comp.recovery[comp.rowMap[rho]] ==
              Add(old(comp.recovery)[comp.rowMap[rho]],
                  RowValue(gr, DenseRow(stream, comp.pr.d, comp.pr.n, gr.width, rho)))
    ensures forall x :: 0 <= x < |comp.recovery| && x !in comp.rowMap[..comp.pr.d] ==>
              comp.recovery[x] == old(comp.recovery)[x]
  {
    hide TempsHeld, RowValue, Add, DeckWords, WindowDecks, WindowsDone, GraphOk, DestOk, ValuesDone;
    var d, n := comp.pr.d, comp.pr.n;
    var prng := new Prng(stream);
    var rows, bits := new nat[d], new nat[d];
    var base := 0;
    ghost var w, dest, rec0 := 0, comp.rowMap[..d], comp.recovery;
    WindowsStart(gr, stream, d, n, dest, rec0);
    while base < n
      invariant base == WindowBase(d, w) && prng.pos == WindowPos(d, w) && prng.stream == stream
      invariant Windows(d, n, 0) == Windows(d, n, w)
      invariant WindowsDone(gr, stream, d, n, w, dest, rec0, comp.recovery)
      modifies comp`recovery, prng, rows, bits
    {
      ghost var rec1 := comp.recovery;
      WindowsTemps(gr, stream, d, n, w, dest, rec0, rec1, comp.peel.cols);
      WindowValues(comp, prng, rows, bits, base, gr);
      WindowsNext(gr, stream, d, n, w, dest, rec0, rec1, comp.recovery);
      base := base + d;
      w := w + 1;
    }
    WindowsEnd(gr, stream, d, n, w, comp.rowMap, rec0, comp.recovery);
  }

  lemma WindowsEnd(gr: Graph, stream: nat -> nat, d: nat, n: nat, w: nat, rowMap: seq<nat>, rec: seq<Block>,
                   rec': seq<Block>)
    requires GraphOk(gr) && 0 < d <= |rowMap| && w == Windows(d, n, 0)
    requires WindowsDone(gr, stream, d, n, w, rowMap[..d], rec, rec')
    ensures |rec'| == |rec| && DestOk(gr, rowMap[..d], d, |rec|)
    ensures forall rho :: 0 <= rho < d ==> rowMap[rho] < |rec|
    ensures forall rho :: 0 <= rho < d ==>
              rec'[rowMap[rho]] == Add(rec[rowMap[rho]], RowValue(gr, DenseRow(stream, d, n, gr.width, rho)))
    ensures forall x :: 0 <= x < |rec| && x !in rowMap[..d] ==> rec'[x] == rec[x]
  {
    hide Add, RowValue, DenseVec;
    forall rho | 0 <= rho < d
      ensures rowMap[rho] < |rec|
      ensures rec'[rowMap[rho]] == Add(rec[rowMap[rho]], RowValue(gr, DenseRow(stream, d, n, gr.width, rho)))
    {
      assert rowMap[..d][rho] == rowMap[rho];
    }
  }
}
