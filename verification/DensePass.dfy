/** MultiplyDenseRows: the dense rows multiplied by the Compression matrix, window by window (src/fec/Wirehair.cpp). */
module DensePass {
  import opened PeelState
  import opened Blocks
  import opened Compression
  import opened Shuffle
  import opened Dense
  import opened Compressing

  /** Column c is solved by peeling and knows its row, or is deferred and knows its elimination column, or is stale and
      still names one. */
  ghost predicate KnownColumn(gr: Graph, stale: seq<nat>, cols: seq<PeelColumn>, c: nat) {
    && GraphOk(gr) && c < |cols|
    && if cols[c].mark == Solved then
         exists j :: 0 <= j < |gr.order| && gr.solved[j] == c && cols[c].slot == gr.order[j]
       else
         || (exists g :: 0 <= g < |gr.colMap| && gr.colMap[g] == c && cols[c].slot == g)
         || (exists g :: 0 <= g < |stale| && stale[g] == c && cols[c].slot == g)
  }

  ghost predicate AllKnown(gr: Graph, stale: seq<nat>, n: nat, cols: seq<PeelColumn>) {
    Stale(gr, stale) && forall c :: 0 <= c < n ==> KnownColumn(gr, stale, cols, c)
  }

  /** The Compression matrix rows of the peeled rows are complete, and every column is known. */
  ghost predicate Compressed(gr: Graph, stale: seq<nat>, n: nat, compress: seq<Bits>, cols: seq<PeelColumn>) {
    && GraphOk(gr) && Apart(gr) && n <= |cols| && n <= gr.width && AllKnown(gr, stale, n, cols)
    && (forall j :: 0 <= j < |gr.order| ==> gr.order[j] < |compress| && compress[gr.order[j]] == CompressRow(gr, j))
  }

  /** Adds matrix column base + x, if there is one, to a row over the elimination columns. */
  method FlipColumn(comp: Compressor, row: Bits, base: nat, x: nat, ghost gr: Graph, ghost stale: seq<nat>,
                    ghost v: Bits)
    returns (row': Bits)
    requires Compressed(gr, stale, comp.pr.n, comp.compress, comp.peel.cols)
    requires |v| == gr.width && row == Image(gr, stale, v)
    ensures row' == Image(gr, stale, FlipBit(v, base, comp.pr.n, x))
  {
    hide Image, XorBits, Apart, Toggle, Stale;
    row' := row;
    if base + x < comp.pr.n {
      var c := base + x;
      assert KnownColumn(gr, stale, comp.peel.cols, c);
      if comp.peel.cols[c].mark == Solved {
        FlipSolved(gr, stale, comp.peel.cols, comp.compress, v, c);
        row' := XorBits(row, comp.compress[comp.peel.cols[c].slot]);
      } else {
        FlipMapped(gr, stale, comp.peel.cols, v, c);
        row' := Toggle(row, comp.peel.cols[c].slot);
      }
    }
  }

  lemma FlipSolved(gr: Graph, stale: seq<nat>, cols: seq<PeelColumn>, compress: seq<Bits>, v: Bits, c: nat)
    requires KnownColumn(gr, stale, cols, c) && Apart(gr) && Stale(gr, stale)
    requires cols[c].mark == Solved && |v| == gr.width && c < gr.width
    requires forall j :: 0 <= j < |gr.order| ==> gr.order[j] < |compress| && compress[gr.order[j]] == CompressRow(gr, j)
    ensures cols[c].slot < |compress| && |compress[cols[c].slot]| == |gr.colMap| == |Image(gr, stale, v)|
    ensures Image(gr, stale, Toggle(v, c)) == XorBits(Image(gr, stale, v), compress[cols[c].slot])
  {
    hide Image, XorBits, Toggle, Apart;
    ToggleXor(v, c);
    ImageXor(gr, stale, v, Unit(gr.width, c));
    var j :| 0 <= j < |gr.order| && gr.solved[j] == c && cols[c].slot == gr.order[j];
    ReduceSolved(gr, j, |gr.order|);
    UnitImage(gr, stale, c, CompressRow(gr, j));
  }

  lemma UnitImage(gr: Graph, stale: seq<nat>, c: nat, row: Bits)
    requires GraphOk(gr) && Stale(gr, stale) && c < gr.width && (c in gr.solved || c in gr.colMap)
    requires Reduce(gr, Unit(gr.width, c), |gr.order|) == row
    ensures Image(gr, stale, Unit(gr.width, c)) == row
  {
    hide Reduce;
    forall g | 0 <= g < |stale| ensures stale[g] != c {
      assert stale[g] in stale;
    }
    assert StaleBits(Unit(gr.width, c), stale, |gr.colMap|) == NoBits(|gr.colMap|);
    XorBitsLaws(row, row, row);
  }

  lemma FlipMapped(gr: Graph, stale: seq<nat>, cols: seq<PeelColumn>, v: Bits, c: nat)
    requires KnownColumn(gr, stale, cols, c) && Apart(gr) && Stale(gr, stale)
    requires cols[c].mark != Solved && |v| == gr.width && c < gr.width
    ensures Image(gr, stale, Toggle(v, c)) == Toggle(Image(gr, stale, v), cols[c].slot)
  {
    hide Image, XorBits, Toggle, Apart, Stale;
    ToggleXor(v, c);
    ImageXor(gr, stale, v, Unit(gr.width, c));
    if g :| 0 <= g < |gr.colMap| && gr.colMap[g] == c && cols[c].slot == g {
      ReduceMapped(gr, g, |gr.order|);
      UnitImage(gr, stale, c, Unit(|gr.colMap|, g));
      ToggleXor(Image(gr, stale, v), g);
    } else {
      var g :| 0 <= g < |stale| && stale[g] == c && cols[c].slot == g;
      StaleImage(gr, stale, g);
      ToggleNamed(Image(gr, stale, v), g);
    }
  }

  lemma StaleImage(gr: Graph, stale: seq<nat>, g: nat)
    requires GraphOk(gr) && Stale(gr, stale) && g < |stale|
    ensures Image(gr, stale, Unit(gr.width, stale[g])) == Unit(|gr.colMap|, g)
  {
    hide Reduce;
    ReduceStale(gr, stale[g], |gr.order|);
    var bits := StaleBits(Unit(gr.width, stale[g]), stale, |gr.colMap|);
    assert bits == Unit(|gr.colMap|, g);
    XorBitsLaws(bits, NoBits(|gr.colMap|), bits);
  }

  lemma ToggleNamed(row: Bits, g: nat)
    ensures Toggle(row, g) == XorBits(row, Unit(|row|, g))
  {}

  /** Dense rows: those whose place in the window's row order is before t have this window's part added. */
  ghost predicate WindowDone(gr: Graph, stale: seq<nat>, dk: Decks, d: nat, base: nat, n: nat, ge: seq<Bits>,
                             ge': seq<Bits>, t: nat)
    requires GraphOk(gr)
  {
    && DecksOk(dk, d) && t <= d <= |ge| == |ge'|
    && (forall rho :: 0 <= rho < |ge| ==> |ge[rho]| == |gr.colMap|)
    && (forall k :: 0 <= k < d ==>
          ge'[dk.rows[k]] == if k < t then
                               XorBits(ge[dk.rows[k]], Image(gr, stale, WindowRow(dk, d, base, n, gr.width, k)))
                             else ge[dk.rows[k]])
    && (forall rho :: d <= rho < |ge| ==> ge'[rho] == ge[rho])
  }

  lemma WindowNext(gr: Graph, stale: seq<nat>, dk: Decks, d: nat, base: nat, n: nat, ge: seq<Bits>, ge': seq<Bits>,
                   t: nat)
    requires GraphOk(gr) && t < d && WindowDone(gr, stale, dk, d, base, n, ge, ge', t)
    ensures dk.rows[t] < |ge'| && |ge'[dk.rows[t]]| == |gr.colMap|
    ensures WindowDone(gr, stale, dk, d, base, n, ge,
              ge'[dk.rows[t] := XorBits(ge'[dk.rows[t]], Image(gr, stale, WindowRow(dk, d, base, n, gr.width, t)))],
              t + 1)
  {
    hide Image, XorBits, WindowRow;
  }

  /** The first row of a window: the first half of the deck set. */
  method FirstDenseRow(comp: Compressor, bits: array<nat>, base: nat, ghost gr: Graph, ghost stale: seq<nat>,
                       ghost dk: Decks) returns (temp: Bits)
    requires GraphOk(gr) && Compressed(gr, stale, comp.pr.n, comp.compress, comp.peel.cols)
    requires 0 < comp.pr.d <= bits.Length && DecksOk(dk, comp.pr.d) && bits[..comp.pr.d] == dk.bits1
    requires 0 < |comp.ge| && |comp.ge[0]| == |gr.colMap|
    ensures temp == Image(gr, stale, WindowRow(dk, comp.pr.d, base, comp.pr.n, gr.width, 0))
  {
    hide Compressed, Image, FlipBit;
    temp := NoBits(|comp.ge[0]|);
    ImageNothing(gr, stale);
    for k := 0 to (comp.pr.d + 1) / 2
      invariant temp == Image(gr, stale, FirstRow(dk, comp.pr.d, base, comp.pr.n, gr.width, k))
    {
      assert bits[k] == dk.bits1[k];
      temp := FlipColumn(comp, temp, base, bits[k], gr, stale, FirstRow(dk, comp.pr.d, base, comp.pr.n, gr.width, k));
    }
  }

  /** The rows after row t0 of a window flip two bits each, one from either half of the deck. */
  method FlipRows(comp: Compressor, rows: array<nat>, bits: array<nat>, base: nat, t0: nat, count: nat, temp0: Bits,
                  ghost gr: Graph, ghost stale: seq<nat>, ghost dk: Decks, ghost flips: seq<nat>, ghost ge0: seq<Bits>)
    returns (temp: Bits)
    requires GraphOk(gr) && Compressed(gr, stale, comp.pr.n, comp.compress, comp.peel.cols)
    requires comp.pr.d <= rows.Length && comp.pr.d <= bits.Length && DecksOk(dk, comp.pr.d)
    requires |flips| == comp.pr.d && bits[..comp.pr.d] == flips && rows[..comp.pr.d] == dk.rows
    requires t0 + count < comp.pr.d && (comp.pr.d + 1) / 2 + count <= comp.pr.d
    requires forall k :: 0 <= k < count ==>
               Flips(dk, comp.pr.d, base, comp.pr.n, gr.width, t0 + k, flips[k], flips[(comp.pr.d + 1) / 2 + k])
    requires temp0 == Image(gr, stale, WindowRow(dk, comp.pr.d, base, comp.pr.n, gr.width, t0))
    requires WindowDone(gr, stale, dk, comp.pr.d, base, comp.pr.n, ge0, comp.ge, t0 + 1)
    modifies comp`ge
    ensures temp == Image(gr, stale, WindowRow(dk, comp.pr.d, base, comp.pr.n, gr.width, t0 + count))
    ensures WindowDone(gr, stale, dk, comp.pr.d, base, comp.pr.n, ge0, comp.ge, t0 + count + 1)
  {
    hide Compressed, Image, XorBits, FlipBit, WindowRow, WindowDone;
    var d, n := comp.pr.d, comp.pr.n;
    var half := (d + 1) / 2;
    temp := temp0;
    for k := 0 to count
      invariant temp == Image(gr, stale, WindowRow(dk, d, base, n, gr.width, t0 + k))
      invariant WindowDone(gr, stale, dk, d, base, n, ge0, comp.ge, t0 + k + 1)
    {
      ghost var v := WindowRow(dk, d, base, n, gr.width, t0 + k);
      assert bits[k] == flips[k] && bits[half + k] == flips[half + k];
      temp := FlipColumn(comp, temp, base, bits[k], gr, stale, v);
      temp := FlipColumn(comp, temp, base, bits[half + k], gr, stale, FlipBit(v, base, n, bits[k]));
      assert Flips(dk, d, base, n, gr.width, t0 + k, flips[k], flips[half + k]);
      WindowNext(gr, stale, dk, d, base, n, ge0, comp.ge, t0 + k + 1);
      assert rows[t0 + k + 1] == dk.rows[t0 + k + 1];
      comp.ge := comp.ge[rows[t0 + k + 1] := XorBits(comp.ge[rows[t0 + k + 1]], temp)];
    }
  }

  ghost predicate Flips(dk: Decks, d: nat, base: nat, n: nat, width: nat, t: nat, x: nat, y: nat)
    requires |dk.bits1| == |dk.bits2| == |dk.bits3| == d && t + 1 < d
  {
    WindowRow(dk, d, base, n, width, t + 1)
    == FlipBit(FlipBit(WindowRow(dk, d, base, n, width, t), base, n, x), base, n, y)
  }

  lemma WindowFlips(dk: Decks, d: nat, base: nat, n: nat, width: nat)
    requires |dk.bits1| == |dk.bits2| == |dk.bits3| == d && d > 0
    ensures forall k :: 0 <= k < d / 2 ==> Flips(dk, d, base, n, width, k, dk.bits2[k], dk.bits2[(d + 1) / 2 + k])
    ensures forall k :: 0 <= k < d / 2 - 1 + d % 2 ==>
              Flips(dk, d, base, n, width, d / 2 + k, dk.bits3[k], dk.bits3[(d + 1) / 2 + k])
  {
    hide FlipBit;
  }

  /** Deals a window's row order and first bit deck, and generates and stores its first row. */
  method BeginWindow(comp: Compressor, prng: Prng, rows: array<nat>, bits: array<nat>, base: nat, ghost gr: Graph,
                     ghost stale: seq<nat>) returns (temp: Bits)
    requires comp.pr.d > 0 && rows.Length >= comp.pr.d && bits.Length >= comp.pr.d && rows != bits
    requires GraphOk(gr) && Compressed(gr, stale, comp.pr.n, comp.compress, comp.peel.cols)
    requires comp.pr.d <= |comp.ge| && forall rho :: 0 <= rho < |comp.ge| ==> |comp.ge[rho]| == |gr.colMap|
    modifies comp`ge, prng, rows, bits
    ensures prng.pos == old(prng.pos) + 2 * DeckWords(comp.pr.d)
    ensures var dk := WindowDecks(prng.stream, old(prng.pos), comp.pr.d);
            && DecksOk(dk, comp.pr.d) && rows[..comp.pr.d] == dk.rows
            && temp == Image(gr, stale, WindowRow(dk, comp.pr.d, base, comp.pr.n, gr.width, 0))
            && WindowDone(gr, stale, dk, comp.pr.d, base, comp.pr.n, old(comp.ge), comp.ge, 1)
  {
    hide Compressed, Image, XorBits, Deck, DeckWords, WindowRow, WindowDone, DecksOk;
    var d := comp.pr.d;
    ghost var dk, ge0 := WindowDecks(prng.stream, prng.pos, d), comp.ge;
    WindowDecksOk(prng.stream, prng.pos, d);
    WindowStart(gr, stale, dk, d, base, comp.pr.n, ge0);
    ShuffleDeck16(prng, rows, d);
    ShuffleDeck16(prng, bits, d);
    temp := FirstDenseRow(comp, bits, base, gr, stale, dk);
    WindowNext(gr, stale, dk, d, base, comp.pr.n, ge0, comp.ge, 0);
    assert rows[0] == dk.rows[0];
    comp.ge := comp.ge[rows[0] := XorBits(comp.ge[rows[0]], temp)];
  }

  /** One window: d generated rows, each added to the dense row its place names. */
  method MultiplyWindow(comp: Compressor, prng: Prng, rows: array<nat>, bits: array<nat>, base: nat, ghost gr: Graph,
                        ghost stale: seq<nat>)
    requires comp.pr.d > 0 && rows.Length >= comp.pr.d && bits.Length >= comp.pr.d && rows != bits
    requires GraphOk(gr) && Compressed(gr, stale, comp.pr.n, comp.compress, comp.peel.cols)
    requires comp.pr.d <= |comp.ge| && forall rho :: 0 <= rho < |comp.ge| ==> |comp.ge[rho]| == |gr.colMap|
    modifies comp`ge, prng, rows, bits
    ensures prng.pos == old(prng.pos) + 4 * DeckWords(comp.pr.d)
    ensures WindowDone(gr, stale, WindowDecks(prng.stream, old(prng.pos), comp.pr.d), comp.pr.d, base, comp.pr.n,
                       old(comp.ge), comp.ge, comp.pr.d)
  {
    hide Compressed, Image, XorBits, Deck, DeckWords, WindowRow, WindowDone, DecksOk, Flips, GraphOk, FlipBit;
    var d, n := comp.pr.d, comp.pr.n;
    ghost var dk, ge0 := WindowDecks(prng.stream, prng.pos, d), comp.ge;
    WindowFlips(dk, d, base, n, gr.width);
    var temp := BeginWindow(comp, prng, rows, bits, base, gr, stale);
    ShuffleDeck16(prng, bits, d);
    assert rows[..d] == dk.rows;
    temp := FlipRows(comp, rows, bits, base, 0, d / 2, temp, gr, stale, dk, dk.bits2, ge0);
    ShuffleDeck16(prng, bits, d);
    if d > 1 {
      assert rows[..d] == dk.rows;
      temp := FlipRows(comp, rows, bits, base, d / 2, d / 2 - 1 + d % 2, temp, gr, stale, dk, dk.bits3, ge0);
    }
  }

  lemma WindowStart(gr: Graph, stale: seq<nat>, dk: Decks, d: nat, base: nat, n: nat, ge: seq<Bits>)
    requires GraphOk(gr) && DecksOk(dk, d) && d <= |ge| && forall rho :: 0 <= rho < |ge| ==> |ge[rho]| == |gr.colMap|
    ensures WindowDone(gr, stale, dk, d, base, n, ge, ge, 0)
    ensures |dk.rows| == |dk.bits1| == |dk.bits2| == |dk.bits3| == d
  {}

  /** The windows it takes to cover n columns, d at a time, starting from window w. */
  function Windows(d: nat, n: nat, w: nat): nat
    requires d > 0
    decreases n - WindowBase(d, w)
  {
    if WindowBase(d, w) >= n then w else Windows(d, n, w + 1)
  }

  /** Dense row rho of the whole check matrix, over the n peel columns. */
  ghost function DenseRow(stream: nat -> nat, d: nat, n: nat, width: nat, rho: nat): (v: Bits)
    requires 0 < d && rho < d
    ensures |v| == width
  {
    DenseVec(stream, d, n, width, Windows(d, n, 0), rho)
  }

  // One finished window extends every dense row.
  lemma WindowExtends(gr: Graph, stale: seq<nat>, stream: nat -> nat, d: nat, n: nat, w: nat, ge: seq<Bits>,
                      ge': seq<Bits>)
    requires GraphOk(gr) && 0 < d
    requires WindowDone(gr, stale, WindowDecks(stream, WindowPos(d, w), d), d, WindowBase(d, w), n, ge, ge', d)
    requires forall rho :: 0 <= rho < d ==> ge[rho] == Image(gr, stale, DenseVec(stream, d, n, gr.width, w, rho))
    ensures forall rho :: 0 <= rho < d ==> ge'[rho] == Image(gr, stale, DenseVec(stream, d, n, gr.width, w + 1, rho))
  {
    hide Image, XorBits, WindowRow, WindowDecks;
    var dk := WindowDecks(stream, WindowPos(d, w), d);
    WindowDecksOk(stream, WindowPos(d, w), d);
    forall rho | 0 <= rho < d
      ensures ge'[rho] == Image(gr, stale, DenseVec(stream, d, n, gr.width, w + 1, rho))
    {
      assert rho in dk.rows;
      var k := Place'(dk.rows, rho);
      ImageXor(gr, stale, DenseVec(stream, d, n, gr.width, w, rho), WindowVec(stream, d, n, gr.width, w, rho));
      assert ge'[dk.rows[k]]
             == XorBits(ge[dk.rows[k]], Image(gr, stale, WindowRow(dk, d, WindowBase(d, w), n, gr.width, k)));
    }
  }

  /** Multiplies the dense rows: each becomes the reduced form of its row of the implied dense matrix. */
  method MultiplyDenseRows(comp: Compressor, stream: nat -> nat, ghost gr: Graph, ghost stale: seq<nat>)
    requires comp.pr.d > 0 && GraphOk(gr) && Compressed(gr, stale, comp.pr.n, comp.compress, comp.peel.cols)
    requires comp.pr.d <= |comp.ge| && forall rho :: 0 <= rho < |comp.ge| ==> |comp.ge[rho]| == |gr.colMap|
    requires forall rho :: 0 <= rho < comp.pr.d ==> comp.ge[rho] == NoBits(|gr.colMap|)
    modifies comp`ge
    ensures |comp.ge| == old(|comp.ge|)
    ensures forall rho :: 0 <= rho < comp.pr.d ==>
              comp.ge[rho] == Image(gr, stale, DenseRow(stream, comp.pr.d, comp.pr.n, gr.width, rho))
    ensures forall rho :: comp.pr.d <= rho < |comp.ge| ==> comp.ge[rho] == old(comp.ge)[rho]
  {
    hide Compressed, Image, XorBits, DeckWords, WindowDecks;
    var d, n := comp.pr.d, comp.pr.n;
    var prng := new Prng(stream);
    var rows, bits := new nat[d], new nat[d];
    var base := 0;
    ghost var w := 0;
    ImageNothing(gr, stale);
    while base < n
      invariant base == WindowBase(d, w) && prng.pos == WindowPos(d, w) && prng.stream == stream
      invariant Windows(d, n, 0) == Windows(d, n, w)
      invariant |comp.ge| == old(|comp.ge|) && forall rho :: 0 <= rho < |comp.ge| ==> |comp.ge[rho]| == |gr.colMap|
      invariant forall rho :: 0 <= rho < d ==>
                  comp.ge[rho] == Image(gr, stale, DenseVec(stream, d, n, gr.width, w, rho))
      invariant forall rho :: d <= rho < |comp.ge| ==> comp.ge[rho] == old(comp.ge)[rho]
      modifies comp`ge, prng, rows, bits
    {
      ghost var ge0 := comp.ge;
      MultiplyWindow(comp, prng, rows, bits, base, gr, stale);
      WindowExtends(gr, stale, stream, d, n, w, ge0, comp.ge);
      base := base + d;
      w := w + 1;
    }
  }

  lemma {:induction false} ReduceNone(gr: Graph, i: nat)
    requires GraphOk(gr) && i <= |gr.order|
    ensures Reduce(gr, NoBits(gr.width), i) == NoBits(|gr.colMap|)
    ensures ReduceValue(gr, NoBits(gr.width), Zero(), i) == Zero()
  {
    hide Add;
    if i > 0 {
      ReduceNone(gr, i - 1);
      XorBitsLaws(NoBits(|gr.colMap|), NoBits(|gr.colMap|), NoBits(|gr.colMap|));
      AddZero(Zero());
    }
  }

  lemma ReduceNothing(gr: Graph)
    requires GraphOk(gr)
    ensures Reduce(gr, NoBits(gr.width), |gr.order|) == NoBits(|gr.colMap|)
    ensures ReduceValue(gr, NoBits(gr.width), Zero(), |gr.order|) == Zero()
  {
    ReduceNone(gr, |gr.order|);
  }

  lemma ImageNothing(gr: Graph, stale: seq<nat>)
    requires GraphOk(gr)
    ensures Image(gr, stale, NoBits(gr.width)) == NoBits(|gr.colMap|)
  {
    hide Reduce;
    ReduceNothing(gr);
    assert StaleBits(NoBits(gr.width), stale, |gr.colMap|) == NoBits(|gr.colMap|);
  }
}
