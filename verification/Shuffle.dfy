/** ShuffleDeck16: the deck it deals from a generator, and that it is a permutation (src/fec/Wirehair.cpp). */
module Shuffle {
  import opened ColumnIterator

  /** The Abyssinian generator as its word stream and a read position. */
  class Prng {
    const stream: nat -> nat
    var pos: nat

    constructor (stream: nat -> nat)
      ensures this.stream == stream && pos == 0
    {
      this.stream := stream;
      pos := 0;
    }

    method Next() returns (rv: nat)
      modifies this
      ensures rv == stream(old(pos)) && pos == old(pos) + 1
    {
      rv := stream(pos);
      pos := pos + 1;
    }
  }

  /** Field k of a word: 8-bit fields for small decks, 16-bit fields for large ones. */
  function Field(rv: nat, bits: nat, k: nat): nat
    requires bits == 8 || bits == 16
  {
    if bits == 8 then
      (if k == 0 then rv else if k == 1 then rv / 0x100 else if k == 2 then rv / 0x1_0000 else rv / 0x100_0000) % 0x100
    else
      (if k == 0 then rv else rv / 0x1_0000) % 0x1_0000
  }

  /** Fields a word supplies, and the words a whole deck consumes. */
  function Lanes(count: nat): nat { if count <= 256 then 4 else 2 }
  function DeckWords(count: nat): nat
    requires count > 0
  {
    if count <= 256 then (count - 1) / 4 + 1 else (count - 1) / 2 + 1
  }

  /** The value that places card i: a field of the word its round drew. A last round of r < 4 cards
      uses the last r of the first three 8-bit fields. */
  function Choice(stream: nat -> nat, pos: nat, count: nat, i: nat): nat
    requires 1 <= i < count
  {
    var lanes := Lanes(count);
    var round, k := (i - 1) / lanes, (i - 1) % lanes;
    var left := count - 1 - round * lanes;
    if lanes == 4 then Field(stream(pos + round), 8, if left < 4 then k + 3 - left else k)
    else Field(stream(pos + round), 16, k)
  }

  /** The deck after cards 0..i are placed: card i takes a random place and moves its holder to the end. */
  function Deal(stream: nat -> nat, pos: nat, count: nat, i: nat): (deck: seq<nat>)
    requires i < count
    ensures |deck| == i + 1
  {
    if i == 0 then [0]
    else
      var deck := Deal(stream, pos, count, i - 1);
      var j := Choice(stream, pos, count, i) % i;
      deck[j := i] + [deck[j]]
  }

  function Deck(stream: nat -> nat, pos: nat, count: nat): (deck: seq<nat>)
    requires count > 0
    ensures |deck| == count
  {
    Deal(stream, pos, count, count - 1)
  }

  /** For every stream the deck is a permutation of 0..count-1. */
  lemma {:induction false} DealPermutes(stream: nat -> nat, pos: nat, count: nat, i: nat)
    requires i < count
    ensures Distinct(Deal(stream, pos, count, i))
    ensures forall k :: 0 <= k <= i ==> Deal(stream, pos, count, i)[k] <= i
  {
    hide Choice, Distinct;
    if i > 0 {
      DealPermutes(stream, pos, count, i - 1);
      PlacePermutes(Deal(stream, pos, count, i - 1), Choice(stream, pos, count, i) % i, i);
    } else {
      OneCard();
    }
  }

  lemma OneCard()
    ensures Distinct([0 as nat])
  {}

  lemma PlacePermutes(deck: seq<nat>, j: nat, i: nat)
    requires |deck| == i && j < i && Distinct(deck) && forall k :: 0 <= k < i ==> deck[k] < i
    ensures var dealt := deck[j := i] + [deck[j]]; Distinct(dealt) && forall k :: 0 <= k <= i ==> dealt[k] <= i
  {}

  lemma DeckPermutes(stream: nat -> nat, pos: nat, count: nat)
    requires count > 0
    ensures Distinct(Deck(stream, pos, count))
    ensures forall k :: 0 <= k < count ==> Deck(stream, pos, count)[k] < count
    ensures forall v: nat :: v < count ==> v in Deck(stream, pos, count)
  {
    DealPermutes(stream, pos, count, count - 1);
    DistinctFull(Deck(stream, pos, count), count);
  }

  /** One placement: card i takes the place its choice names and moves that place's card to the end. */
  method Place(deck: array<nat>, i: nat, choice: nat, ghost stream: nat -> nat, ghost pos: nat, ghost count: nat)
    requires 1 <= i < count <= deck.Length
    requires deck[..i] == Deal(stream, pos, count, i - 1) && choice == Choice(stream, pos, count, i)
    modifies deck
    ensures deck[..i + 1] == Deal(stream, pos, count, i)
  {
    hide Choice;
    var j := choice % i;
    ghost var dealt := deck[..i];
    deck[i] := deck[j];
    deck[j] := i;
    assert deck[..i + 1] == dealt[j := i] + [dealt[j]];
  }

  method ShuffleDeck16(prng: Prng, deck: array<nat>, count: nat)
    requires 0 < count <= deck.Length
    modifies prng, deck
    ensures deck[..count] == Deck(prng.stream, old(prng.pos), count)
    ensures prng.pos == old(prng.pos) + DeckWords(count)
  {
    deck[0] := 0;
    assert deck[..1] == [0];
    if count <= 256 {
      ShuffleBytes(prng, deck, count);
    } else {
      ShuffleHalves(prng, deck, count);
    }
  }

  /** The 8-bit unroll: four cards a word, and the last one to three cards from one more. */
  method ShuffleBytes(prng: Prng, deck: array<nat>, count: nat)
    requires 0 < count <= 256 && count <= deck.Length && deck[..1] == [0]
    modifies prng, deck
    ensures deck[..count] == Deck(prng.stream, old(prng.pos), count)
    ensures prng.pos == old(prng.pos) + DeckWords(count)
  {
    hide Field, Choice, Deal;
    ghost var stream, pos := prng.stream, prng.pos;
    DealZero(stream, pos, count);
    var i := 1;
    ghost var round := 0;
    while true
      invariant i == 1 + 4 * round <= count
      invariant prng.pos == pos + round
      invariant deck[..i] == Deal(stream, pos, count, i - 1)
      decreases count - i
    {
      var rv := prng.Next();
      WordsUsed(count, 4, round);
      ByteChoices(stream, pos, count, round);
      if count - i >= 4 {
        Place(deck, i, Field(rv, 8, 0), stream, pos, count);
        Place(deck, i + 1, Field(rv, 8, 1), stream, pos, count);
        Place(deck, i + 2, Field(rv, 8, 2), stream, pos, count);
        Place(deck, i + 3, Field(rv, 8, 3), stream, pos, count);
        i := i + 4;
        round := round + 1;
      } else {
        if count - i == 3 {
          Place(deck, i, Field(rv, 8, 0), stream, pos, count);
          i := i + 1;
        }
        if count - i == 2 {
          Place(deck, i, Field(rv, 8, 1), stream, pos, count);
          i := i + 1;
        }
        if count - i == 1 {
          Place(deck, i, Field(rv, 8, 2), stream, pos, count);
        }
        return;
      }
    }
  }

  /** The 16-bit unroll: two cards a word. */
  method ShuffleHalves(prng: Prng, deck: array<nat>, count: nat)
    requires 256 < count <= deck.Length && deck[..1] == [0]
    modifies prng, deck
    ensures deck[..count] == Deck(prng.stream, old(prng.pos), count)
    ensures prng.pos == old(prng.pos) + DeckWords(count)
  {
    hide Field, Choice, Deal;
    ghost var stream, pos := prng.stream, prng.pos;
    DealZero(stream, pos, count);
    var i := 1;
    ghost var round := 0;
    while true
      invariant i == 1 + 2 * round <= count
      invariant prng.pos == pos + round
      invariant deck[..i] == Deal(stream, pos, count, i - 1)
      decreases count - i
    {
      var rv := prng.Next();
      WordsUsed(count, 2, round);
      HalfChoices(stream, pos, count, round);
      if count - i >= 2 {
        Place(deck, i, Field(rv, 16, 0), stream, pos, count);
        Place(deck, i + 1, Field(rv, 16, 1), stream, pos, count);
        i := i + 2;
        round := round + 1;
      } else {
        if count - i == 1 {
          Place(deck, i, Field(rv, 16, 0), stream, pos, count);
        }
        return;
      }
    }
  }

  lemma DealZero(stream: nat -> nat, pos: nat, count: nat)
    requires count > 0
    ensures Deal(stream, pos, count, 0) == [0]
  {}

  lemma WordsUsed(count: nat, lanes: nat, round: nat)
    requires count > 0 && lanes == Lanes(count) && 1 + lanes * round <= count
    ensures count - 1 - lanes * round < lanes ==> DeckWords(count) == round + 1
  {}

  // The fields one word supplies, by position in its round.
  lemma ByteChoices(stream: nat -> nat, pos: nat, count: nat, round: nat)
    requires count <= 256 && 1 + 4 * round <= count
    ensures var i := 1 + 4 * round; var rv := stream(pos + round);
              var skip := if count - i < 4 then 3 - (count - i) else 0;
            && (i < count ==> Choice(stream, pos, count, i) == Field(rv, 8, skip))
            && (i + 1 < count ==> Choice(stream, pos, count, i + 1) == Field(rv, 8, skip + 1))
            && (i + 2 < count ==> Choice(stream, pos, count, i + 2) == Field(rv, 8, skip + 2))
            && (i + 3 < count ==> Choice(stream, pos, count, i + 3) == Field(rv, 8, 3))
  {
    hide Field;
  }

  lemma HalfChoices(stream: nat -> nat, pos: nat, count: nat, round: nat)
    requires count > 256 && 1 + 2 * round <= count
    ensures var i := 1 + 2 * round; var rv := stream(pos + round);
            && (i < count ==> Choice(stream, pos, count, i) == Field(rv, 16, 0))
            && (i + 1 < count ==> Choice(stream, pos, count, i + 1) == Field(rv, 16, 1))
  {
    hide Field;
  }
}
