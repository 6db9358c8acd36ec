/** What the implied dense rows hold (src/fec/Wirehair.cpp:1893-2062): the bits of each window, from its decks. */
module DenseColumns {
  import opened ColumnIterator
  import opened Blocks
  import opened Shuffle
  import opened Dense
  import opened DensePass

  // ---- Where a window is ----

  lemma {:induction false} WindowAt(d: nat, w: nat)
    requires d > 0
    ensures WindowBase(d, w) == w * d && WindowPos(d, w) == w * (4 * DeckWords(d))
  {
    if w > 0 {
      WindowAt(d, w - 1);
      NextMultiple(w, d);
      NextMultiple(w, 4 * DeckWords(d));
    }
  }

  lemma NextMultiple(w: nat, x: nat)
    requires w > 0
    ensures (w - 1) * x + x == w * x
  {}

  lemma {:induction false} BaseGrows(d: nat, v: nat, w: nat)
    requires v <= w
    ensures WindowBase(d, v) <= WindowBase(d, w) && (v < w ==> WindowBase(d, v) + d <= WindowBase(d, w))
    decreases w - v
  {
    if v < w {
      BaseGrows(d, v, w - 1);
    }
  }

  /** There are windows as long as they begin before column n. */
  lemma {:induction false} WindowCount(d: nat, n: nat, v: nat, w: nat)
    requires d > 0 && v <= w
    ensures w < Windows(d, n, v) <==> WindowBase(d, w) < n
    ensures v <= Windows(d, n, v)
    decreases n - WindowBase(d, v)
  {
    BaseGrows(d, v, w);
    if WindowBase(d, v) < n {
      WindowCount(d, n, v + 1, if w == v then w + 1 else w);
    }
  }

  // ---- A window's rows touch only its columns ----

  lemma {:induction false} FirstInside(dk: Decks, d: nat, base: nat, n: nat, width: nat, k: nat, c: nat)
    requires DecksOk(dk, d) && k <= d && c < width && !(base <= c < base + d && c < n)
    ensures !FirstRow(dk, d, base, n, width, k)[c]
  {
    if k > 0 {
      FirstInside(dk, d, base, n, width, k - 1, c);
    }
  }

  lemma {:induction false} RowInside(dk: Decks, d: nat, base: nat, n: nat, width: nat, t: nat, c: nat)
    requires DecksOk(dk, d) && t < d && c < width && !(base <= c < base + d && c < n)
    ensures !WindowRow(dk, d, base, n, width, t)[c]
  {
    hide FirstRow, FlipBit;
    if t > 0 {
      var prev, half := WindowRow(dk, d, base, n, width, t - 1), (d + 1) / 2;
      var deck, u := if t <= d / 2 then dk.bits2 else dk.bits3, if t <= d / 2 then t - 1 else t - 1 - d / 2;
      RowInside(dk, d, base, n, width, t - 1, c);
      FlipInside(prev, d, base, n, deck[u], c);
      FlipInside(FlipBit(prev, base, n, deck[u]), d, base, n, deck[half + u], c);
    } else {
      FirstInside(dk, d, base, n, width, (d + 1) / 2, c);
    }
  }

  lemma FlipInside(v: Bits, d: nat, base: nat, n: nat, x: nat, c: nat)
    requires x < d && c < |v| && !(base <= c < base + d && c < n)
    ensures FlipBit(v, base, n, x)[c] == v[c]
  {}

  lemma {:induction false} OutsideWindows(stream: nat -> nat, d: nat, n: nat, width: nat, w: nat, rho: nat, c: nat)
    requires 0 < d && rho < d && c < width && (WindowBase(d, w) <= c || n <= c)
    ensures !DenseVec(stream, d, n, width, w, rho)[c]
  {
    hide WindowVec;
    if w > 0 {
      assert WindowBase(d, w) == WindowBase(d, w - 1) + d;
      OutsideWindows(stream, d, n, width, w - 1, rho, c);
      OutsideWindow(stream, d, n, width, w - 1, rho, c);
    }
  }

  lemma OutsideWindow(stream: nat -> nat, d: nat, n: nat, width: nat, w: nat, rho: nat, c: nat)
    requires 0 < d && rho < d && c < width
    requires !(WindowBase(d, w) <= c < WindowBase(d, w) + d && c < n)
    ensures !WindowVec(stream, d, n, width, w, rho)[c]
  {
    hide WindowRow, WindowDecks, DecksOk;
    var dk := WindowDecks(stream, WindowPos(d, w), d);
    WindowDecksOk(stream, WindowPos(d, w), d);
    DeckSizes(dk, d);
    RowInside(dk, d, WindowBase(d, w), n, width, Place'(dk.rows, rho), c);
  }

  lemma DeckSizes(dk: Decks, d: nat)
    requires DecksOk(dk, d)
    ensures |dk.rows| == |dk.bits1| == |dk.bits2| == |dk.bits3| == d && Distinct(dk.rows)
  {}

  /** So a column's bit is its own window's. */
  lemma {:induction false} OwnWindow(stream: nat -> nat, d: nat, n: nat, width: nat, v: nat, w: nat, rho: nat, c: nat)
    requires 0 < d && rho < d && c < width && w < v && WindowBase(d, w) <= c < WindowBase(d, w) + d
    ensures DenseVec(stream, d, n, width, v, rho)[c] == WindowVec(stream, d, n, width, w, rho)[c]
  {
    hide WindowVec;
    if w == v - 1 {
      OutsideWindows(stream, d, n, width, w, rho, c);
    } else {
      OwnWindow(stream, d, n, width, v - 1, w, rho, c);
      BaseGrows(d, w, v - 1);
      OutsideWindow(stream, d, n, width, v - 1, rho, c);
    }
  }

  // ---- The bits of a window, by its decks ----

  /** The deck that window w draws k-th. */
  function DeckOf(stream: nat -> nat, d: nat, w: nat, k: nat): (deck: seq<nat>)
    requires d > 0
    ensures |deck| == d
  {
    Deck(stream, (4 * w + k) * DeckWords(d), d)
  }

  lemma DeckAt(stream: nat -> nat, d: nat, w: nat, k: nat)
    requires d > 0
    ensures DeckOf(stream, d, w, k) == Deck(stream, WindowPos(d, w) + k * DeckWords(d), d)
    ensures Distinct(DeckOf(stream, d, w, k)) && forall i :: 0 <= i < d ==> DeckOf(stream, d, w, k)[i] < d
  {
    hide Deck, DeckWords, Distinct, WindowPos;
    WindowAt(d, w);
    FourTimes(w, k, DeckWords(d));
    DeckPermutes(stream, (4 * w + k) * DeckWords(d), d);
  }

  lemma DecksAre(stream: nat -> nat, d: nat, w: nat)
    requires d > 0
    ensures var dk := WindowDecks(stream, WindowPos(d, w), d);
            && DecksOk(dk, d) && dk.rows == DeckOf(stream, d, w, 0) && dk.bits1 == DeckOf(stream, d, w, 1)
            && dk.bits2 == DeckOf(stream, d, w, 2) && dk.bits3 == DeckOf(stream, d, w, 3)
  {
    hide Deck, DeckWords, DecksOk, Distinct, WindowPos, DeckOf;
    WindowDecksOk(stream, WindowPos(d, w), d);
    DeckAt(stream, d, w, 0);
    DeckAt(stream, d, w, 1);
    DeckAt(stream, d, w, 2);
    DeckAt(stream, d, w, 3);
  }

  lemma FourTimes(w: nat, k: nat, x: nat)
    ensures (4 * w + k) * x == w * (4 * x) + k * x
  {}

  /** Column x of window w in the dense row that is dealt t-th. */
  ghost predicate Cell(stream: nat -> nat, d: nat, n: nat, width: nat, w: nat, t: nat, x: nat)
    requires 0 < d && t < d && w * d + x < width
  {
    DeckAt(stream, d, w, 0);
    DenseRow(stream, d, n, width, DeckOf(stream, d, w, 0)[t])[w * d + x]
  }

  lemma CellIs(stream: nat -> nat, d: nat, n: nat, width: nat, w: nat, t: nat, x: nat)
    requires 0 < d && t < d && x < d && w * d + x < n <= width
    ensures DecksOk(WindowDecks(stream, WindowPos(d, w), d), d)
    ensures |WindowDecks(stream, WindowPos(d, w), d).bits1| == |WindowDecks(stream, WindowPos(d, w), d).bits2| == d
    ensures |WindowDecks(stream, WindowPos(d, w), d).bits3| == d
    ensures Cell(stream, d, n, width, w, t, x) ==
            WindowRow(WindowDecks(stream, WindowPos(d, w), d), d, w * d, n, width, t)[w * d + x]
  {
    hide WindowRow, WindowDecks, DecksOk, DeckOf, DenseVec, Windows;
    WindowAt(d, w);
    DecksAre(stream, d, w);
    var dk := WindowDecks(stream, WindowPos(d, w), d);
    DeckSizes(dk, d);
    WindowDecksOk(stream, WindowPos(d, w), d);
    DeckAt(stream, d, w, 0);
    var rho := DeckOf(stream, d, w, 0)[t];
    WindowCount(d, n, 0, w);
    OwnWindow(stream, d, n, width, Windows(d, n, 0), w, rho, w * d + x);
    OnePlace(dk.rows, t, Place'(dk.rows, rho));
  }

  lemma OnePlace(s: seq<nat>, i: nat, j: nat)
    requires Distinct(s) && i < |s| && j < |s| && s[i] == s[j]
    ensures i == j
  {}

  lemma {:induction false} FirstBits(dk: Decks, d: nat, base: nat, n: nat, width: nat, k: nat, x: nat)
    requires DecksOk(dk, d) && Distinct(dk.bits1) && k <= d && x < d && base + x < n <= width
    ensures FirstRow(dk, d, base, n, width, k)[base + x] == (x in dk.bits1[..k])
  {
    if k > 0 {
      FirstBits(dk, d, base, n, width, k - 1, x);
      assert dk.bits1[..k] == dk.bits1[..k - 1] + [dk.bits1[k - 1]];
      if x in dk.bits1[..k - 1] {
        var i :| 0 <= i < k - 1 && dk.bits1[i] == x;
      }
    }
  }

  /** The row that is dealt first holds exactly the first half of the second deck's cards, but for those past
      column n. */
  lemma FirstDealt(stream: nat -> nat, d: nat, n: nat, width: nat, w: nat, x: nat)
    requires 0 < d && x < d && w * d + x < n <= width
    ensures Cell(stream, d, n, width, w, 0, x) <==> x in DeckOf(stream, d, w, 1)[..(d + 1) / 2]
  {
    hide FirstRow, WindowDecks, DecksOk, DeckOf, Cell;
    DecksAre(stream, d, w);
    DeckAt(stream, d, w, 1);
    CellIs(stream, d, n, width, w, 0, x);
    FirstBits(WindowDecks(stream, WindowPos(d, w), d), d, w * d, n, width, (d + 1) / 2, x);
  }

  /** In a whole window those are (d + 1) / 2 columns. */
  lemma FirstDealtWeight(stream: nat -> nat, d: nat, n: nat, width: nat, w: nat)
    requires 0 < d && w * d + d <= n <= width
    ensures |set x | 0 <= x < d && Cell(stream, d, n, width, w, 0, x)| == (d + 1) / 2
  {
    hide Cell, DeckOf;
    DeckAt(stream, d, w, 1);
    var half := DeckOf(stream, d, w, 1)[..(d + 1) / 2];
    var columns := set x | 0 <= x < d && Cell(stream, d, n, width, w, 0, x);
    forall x | 0 <= x < d ensures x in columns <==> x in half {
      FirstDealt(stream, d, n, width, w, x);
    }
    forall x | x in half ensures x in columns {
      var i :| 0 <= i < |half| && half[i] == x;
      assert DeckOf(stream, d, w, 1)[i] == x;
    }
    DistinctSize(half, columns);
  }

  /** The two cards of the third deck, and once that is used up of the fourth, that the row dealt t-th flips. */
  function FlipsOf(stream: nat -> nat, d: nat, w: nat, t: nat): (cards: (nat, nat))
    requires 0 < t < d
  {
    var deck, u := if t <= d / 2 then DeckOf(stream, d, w, 2) else DeckOf(stream, d, w, 3),
                   if t <= d / 2 then t - 1 else t - 1 - d / 2;
    (deck[u], deck[(d + 1) / 2 + u])
  }

  /** Every later row differs from the one dealt before it in exactly two columns, but for those past column n. */
  lemma LaterDealt(stream: nat -> nat, d: nat, n: nat, width: nat, w: nat, t: nat, x: nat)
    requires 0 < t < d && x < d && w * d + x < n <= width
    ensures var (a, b) := FlipsOf(stream, d, w, t);
            && a != b && a < d && b < d
            && (Cell(stream, d, n, width, w, t, x) != Cell(stream, d, n, width, w, t - 1, x) <==> x == a || x == b)
  {
    hide WindowRow, WindowDecks, DecksOk, FlipsOf, Cell;
    CellIs(stream, d, n, width, w, t, x);
    CellIs(stream, d, n, width, w, t - 1, x);
    var cards := FlipsOf(stream, d, w, t);
    FlipsAre(stream, d, w, t);
    RowStep(WindowDecks(stream, WindowPos(d, w), d), d, w * d, n, width, t, cards.0, cards.1, x);
  }

  lemma FlipsAre(stream: nat -> nat, d: nat, w: nat, t: nat)
    requires 0 < t < d
    ensures var dk, (a, b), half := WindowDecks(stream, WindowPos(d, w), d), FlipsOf(stream, d, w, t), (d + 1) / 2;
            && |dk.bits2| == |dk.bits3| == d && a != b && a < d && b < d
            && if t <= d / 2 then a == dk.bits2[t - 1] && b == dk.bits2[half + t - 1]
               else a == dk.bits3[t - 1 - d / 2] && b == dk.bits3[half + t - 1 - d / 2]
  {
    hide WindowDecks, DecksOk, DeckOf, Distinct;
    DecksAre(stream, d, w);
    if t <= d / 2 {
      DeckAt(stream, d, w, 2);
      TwoCards(DeckOf(stream, d, w, 2), d, t - 1);
    } else {
      DeckAt(stream, d, w, 3);
      TwoCards(DeckOf(stream, d, w, 3), d, t - 1 - d / 2);
    }
  }

  lemma TwoCards(deck: seq<nat>, d: nat, u: nat)
    requires |deck| == d && Distinct(deck) && u < (d + 1) / 2 && (d + 1) / 2 + u < d
    ensures deck[u] != deck[(d + 1) / 2 + u]
  {}

  lemma RowStep(dk: Decks, d: nat, base: nat, n: nat, width: nat, t: nat, a: nat, b: nat, x: nat)
    requires |dk.bits1| == |dk.bits2| == |dk.bits3| == d && 0 < t < d && base + x < n <= width && a != b
    requires if t <= d / 2 then a == dk.bits2[t - 1] && b == dk.bits2[(d + 1) / 2 + t - 1]
             else a == dk.bits3[t - 1 - d / 2] && b == dk.bits3[(d + 1) / 2 + t - 1 - d / 2]
    ensures WindowRow(dk, d, base, n, width, t)[base + x] != WindowRow(dk, d, base, n, width, t - 1)[base + x] <==>
            x == a || x == b
  {
    hide FlipBit, FirstRow;
    var prev := WindowRow(dk, d, base, n, width, t - 1);
    assert WindowRow(dk, d, base, n, width, t) == FlipBit(FlipBit(prev, base, n, a), base, n, b);
    FlippedAt(prev, base, n, a, x);
    FlippedAt(FlipBit(prev, base, n, a), base, n, b, x);
  }

  lemma FlippedAt(v: Bits, base: nat, n: nat, a: nat, x: nat)
    requires base + x < n <= |v|
    ensures FlipBit(v, base, n, a)[base + x] == (v[base + x] != (x == a))
  {}

  /** And no dense row has a bit outside the n peel columns. */
  lemma NoDenseBits(stream: nat -> nat, d: nat, n: nat, width: nat, rho: nat, c: nat)
    requires 0 < d && rho < d && n <= c < width
    ensures !DenseRow(stream, d, n, width, rho)[c]
  {
    OutsideWindows(stream, d, n, width, Windows(d, n, 0), rho, c);
  }
}
