/** The implied dense matrix of the Shuffle-2 code, and what flipping one of its bits does to a reduced
    equation (src/fec/Wirehair.cpp). */
module Dense {
  import opened ColumnIterator
  import opened Blocks
  import opened Compression
  import opened Shuffle

  // ---- Reducing a single column ----

  ghost function Unit(width: nat, c: nat): (v: Bits)
    ensures |v| == width
  {
    seq(width, i requires 0 <= i < width => i == c)
  }

  function Toggle(v: Bits, c: nat): (r: Bits)
    ensures |r| == |v|
  {
    if c < |v| then v[c := !v[c]] else v
  }

  lemma ToggleXor(v: Bits, c: nat)
    requires c < |v|
    ensures Toggle(v, c) == XorBits(v, Unit(|v|, c))
  {}

  /** No column is solved or left for elimination twice. */
  ghost predicate Apart(gr: Graph) {
    Distinct(gr.solved + gr.colMap)
  }

  lemma PartitionedApart(gr: Graph)
    requires Partitioned(gr)
    ensures Apart(gr)
  {}

  /** A solved column reduces to its compressed row and temporary block. */
  lemma {:induction false} ReduceSolved(gr: Graph, j: nat, i: nat)
    requires GraphOk(gr) && Apart(gr) && j < |gr.order| && i <= |gr.order|
    ensures Reduce(gr, Unit(gr.width, gr.solved[j]), i) == if j < i then CompressRow(gr, j) else NoBits(|gr.colMap|)
    ensures ReduceValue(gr, Unit(gr.width, gr.solved[j]), Zero(), i) == if j < i then Temp(gr, j) else Zero()
  {
    hide Add, XorBits, Apart;
    ApartFrom(gr, j);
    if i == 0 {
      assert Pull(Unit(gr.width, gr.solved[j]), gr.colMap) == NoBits(|gr.colMap|);
    } else {
      ReduceSolved(gr, j, i - 1);
      var row := CompressRow(gr, i - 1);
      XorBitsLaws(NoBits(|gr.colMap|), row, row);
      XorBitsLaws(row, row, row);
      AddZero(Temp(gr, i - 1));
      AddZero(Temp(gr, j));
      AddZero(Zero());
      XorBitsLaws(CompressRow(gr, j), row, row);
    }
  }

  lemma ApartFrom(gr: Graph, j: nat)
    requires Apart(gr) && j < |gr.solved|
    ensures forall g :: 0 <= g < |gr.colMap| ==> gr.colMap[g] != gr.solved[j]
    ensures forall i :: 0 <= i < |gr.solved| ==> (gr.solved[i] == gr.solved[j] <==> i == j)
  {
    var all := gr.solved + gr.colMap;
    forall g | 0 <= g < |gr.colMap| ensures gr.colMap[g] != gr.solved[j] {
      assert all[j] != all[|gr.solved| + g];
    }
    forall i | 0 <= i < |gr.solved| ensures gr.solved[i] == gr.solved[j] <==> i == j {
      assert all[i] == gr.solved[i] && all[j] == gr.solved[j];
    }
  }

  /** An elimination column reduces to itself and adds nothing to the value. */
  lemma {:induction false} ReduceMapped(gr: Graph, g: nat, i: nat)
    requires GraphOk(gr) && Apart(gr) && g < |gr.colMap| && i <= |gr.order|
    ensures Reduce(gr, Unit(gr.width, gr.colMap[g]), i) == Unit(|gr.colMap|, g)
    ensures ReduceValue(gr, Unit(gr.width, gr.colMap[g]), Zero(), i) == Zero()
  {
    hide Add;
    var v := Unit(gr.width, gr.colMap[g]);
    var all := gr.solved + gr.colMap;
    if i == 0 {
      forall g' | 0 <= g' < |gr.colMap| && g' != g ensures gr.colMap[g'] != gr.colMap[g] {
        assert all[|gr.solved| + g] != all[|gr.solved| + g'];
      }
      assert Pull(v, gr.colMap) == Unit(|gr.colMap|, g);
    } else {
      ReduceMapped(gr, g, i - 1);
      assert all[|gr.solved| + g] != all[i - 1];
      XorBitsLaws(Unit(|gr.colMap|, g), NoBits(|gr.colMap|), NoBits(|gr.colMap|));
      AddZero(Zero());
    }
  }

  // ---- Columns that still name an elimination column ----

  /** Deferred columns of an earlier solve that are neither solved nor left for elimination now. */
  ghost predicate Stale(gr: Graph, stale: seq<nat>) {
    && Distinct(stale)
    && forall g :: 0 <= g < |stale| ==> stale[g] < gr.width && stale[g] !in gr.solved && stale[g] !in gr.colMap
  }

  /** The elimination columns they named. */
  ghost function StaleBits(v: Bits, stale: seq<nat>, width: nat): (r: Bits)
    ensures |r| == width
  {
    seq(width, g requires 0 <= g < width => g < |stale| && stale[g] < |v| && v[stale[g]])
  }

  /** What the dense pass makes of coefficients v: the reduced row, with each stale column read as the elimination
      column it named. */
  ghost function Image(gr: Graph, stale: seq<nat>, v: Bits): (r: Bits)
    requires GraphOk(gr) && |v| == gr.width
    ensures |r| == |gr.colMap|
  {
    XorBits(Reduce(gr, v, |gr.order|), StaleBits(v, stale, |gr.colMap|))
  }

  lemma ImageNone(gr: Graph, v: Bits)
    requires GraphOk(gr) && |v| == gr.width
    ensures Image(gr, [], v) == Reduce(gr, v, |gr.order|)
  {
    hide Reduce;
  }

  lemma ImageXor(gr: Graph, stale: seq<nat>, v: Bits, w: Bits)
    requires GraphOk(gr) && |v| == |w| == gr.width
    ensures Image(gr, stale, XorBits(v, w)) == XorBits(Image(gr, stale, v), Image(gr, stale, w))
  {
    hide Reduce;
    ReduceXor(gr, v, w, |gr.order|);
  }

  lemma {:induction false} ReduceStale(gr: Graph, c: nat, i: nat)
    requires GraphOk(gr) && c < gr.width && c !in gr.solved && c !in gr.colMap && i <= |gr.order|
    ensures Reduce(gr, Unit(gr.width, c), i) == NoBits(|gr.colMap|)
    ensures ReduceValue(gr, Unit(gr.width, c), Zero(), i) == Zero()
  {
    hide Add;
    if i > 0 {
      ReduceStale(gr, c, i - 1);
      assert gr.solved[i - 1] in gr.solved;
      AddZero(Zero());
    }
  }

  // ---- The implied dense matrix ----

  /** The four decks one window of d columns draws: row order, first row's bits, and two flip orders. */
  datatype Decks = Decks(rows: seq<nat>, bits1: seq<nat>, bits2: seq<nat>, bits3: seq<nat>)

  ghost predicate DecksOk(dk: Decks, d: nat) {
    && |dk.rows| == |dk.bits1| == |dk.bits2| == |dk.bits3| == d
    && Distinct(dk.rows)
    && (forall i :: 0 <= i < d ==> dk.rows[i] < d && dk.bits1[i] < d && dk.bits2[i] < d && dk.bits3[i] < d)
  }

  function WindowDecks(stream: nat -> nat, pos: nat, d: nat): Decks
    requires d > 0
  {
    var k := DeckWords(d);
    Decks(Deck(stream, pos, d), Deck(stream, pos + k, d), Deck(stream, pos + 2 * k, d), Deck(stream, pos + 3 * k, d))
  }

  lemma WindowDecksOk(stream: nat -> nat, pos: nat, d: nat)
    requires d > 0
    ensures DecksOk(WindowDecks(stream, pos, d), d)
    ensures forall rho: nat :: rho < d ==> rho in WindowDecks(stream, pos, d).rows
  {
    hide Deck;
    var k := DeckWords(d);
    DeckPermutes(stream, pos, d);
    DeckPermutes(stream, pos + k, d);
    DeckPermutes(stream, pos + 2 * k, d);
    DeckPermutes(stream, pos + 3 * k, d);
  }

  /** Flips window bit x of coefficient vector v; bits past the last column do not exist. */
  function FlipBit(v: Bits, base: nat, n: nat, x: nat): (r: Bits)
    ensures |r| == |v|
  {
    if base + x < n then Toggle(v, base + x) else v
  }

  /** The first generated row: the first half of its deck set. */
  function FirstRow(dk: Decks, d: nat, base: nat, n: nat, width: nat, k: nat): (v: Bits)
    requires k <= |dk.bits1|
    ensures |v| == width
  {
    if k == 0 then NoBits(width) else FlipBit(FirstRow(dk, d, base, n, width, k - 1), base, n, dk.bits1[k - 1])
  }

  /** The t-th generated row of a window: each row after the first flips one bit of either half. */
  function WindowRow(dk: Decks, d: nat, base: nat, n: nat, width: nat, t: nat): (v: Bits)
    requires |dk.bits1| == |dk.bits2| == |dk.bits3| == d && t < d
    ensures |v| == width
  {
    var half, flips := (d + 1) / 2, d / 2;
    if t == 0 then FirstRow(dk, d, base, n, width, half)
    else
      var prev := WindowRow(dk, d, base, n, width, t - 1);
      if t <= flips then FlipBit(FlipBit(prev, base, n, dk.bits2[t - 1]), base, n, dk.bits2[half + t - 1])
      else FlipBit(FlipBit(prev, base, n, dk.bits3[t - 1 - flips]), base, n, dk.bits3[half + t - 1 - flips])
  }

  ghost function Place'(rows: seq<nat>, rho: nat): (t: nat)
    requires rho in rows
    ensures t < |rows| && rows[t] == rho
  {
    var t :| 0 <= t < |rows| && rows[t] == rho; t
  }

  /** Where window w starts: in the word stream, and in the columns. */
  function WindowPos(d: nat, w: nat): nat
    requires 0 < d
  {
    if w == 0 then 0 else WindowPos(d, w - 1) + 4 * DeckWords(d)
  }

  function WindowBase(d: nat, w: nat): nat {
    if w == 0 then 0 else WindowBase(d, w - 1) + d
  }

  /** Dense row rho over the first w windows, as coefficients over all columns. */
  ghost function DenseVec(stream: nat -> nat, d: nat, n: nat, width: nat, w: nat, rho: nat): (v: Bits)
    requires 0 < d && rho < d
    ensures |v| == width
  {
    if w == 0 then NoBits(width)
    else XorBits(DenseVec(stream, d, n, width, w - 1, rho), WindowVec(stream, d, n, width, w - 1, rho))
  }

  /** What window w adds to dense row rho. */
  ghost function WindowVec(stream: nat -> nat, d: nat, n: nat, width: nat, w: nat, rho: nat): (v: Bits)
    requires 0 < d && rho < d
    ensures |v| == width
  {
    var dk := WindowDecks(stream, WindowPos(d, w), d);
    WindowDecksOk(stream, WindowPos(d, w), d);
    WindowRow(dk, d, WindowBase(d, w), n, width, Place'(dk.rows, rho))
  }
}
