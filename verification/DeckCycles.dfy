/** Which decks ShuffleDeck16 deals (src/fec/Wirehair.cpp:604-686): every one is a single cycle, different choices deal
    different decks, and the choices are the bytes or halves of the words, lowest first. */
module DeckCycles {
  import opened Shuffle

  // ---- Different choices, different decks ----

  ghost predicate Closed(deck: seq<nat>) {
    deck != [] && forall k :: 0 <= k < |deck| ==> deck[k] < |deck|
  }

  /** The next card takes place j and moves its holder to the end. */
  function Placed(deck: seq<nat>, j: nat): (dealt: seq<nat>)
    requires j < |deck|
  {
    deck[j := |deck|] + [deck[j]]
  }

  lemma DealClosed(stream: nat -> nat, pos: nat, count: nat, i: nat)
    requires i < count
    ensures Closed(Deal(stream, pos, count, i))
    ensures i > 0 ==> Deal(stream, pos, count, i) ==
                      Placed(Deal(stream, pos, count, i - 1), Choice(stream, pos, count, i) % i)
  {
    hide Choice;
    DealPermutes(stream, pos, count, i);
  }

  /** Each card comes to the end of the deck and changes places with the card its choice names. */
  lemma DealExchanges(stream: nat -> nat, pos: nat, count: nat, i: nat)
    requires 1 <= i < count
    ensures var deck, j := Deal(stream, pos, count, i - 1) + [i], Choice(stream, pos, count, i) % i;
            Deal(stream, pos, count, i) == deck[j := deck[i]][i := deck[j]]
  {
    hide Choice;
  }

  /** Two decks are the same only if all their choices name the same places. */
  lemma {:induction false} DealInjective(stream: nat -> nat, pos: nat, stream': nat -> nat, pos': nat, count: nat,
                                         i: nat)
    requires i < count && Deal(stream, pos, count, i) == Deal(stream', pos', count, i)
    ensures forall k :: 1 <= k <= i ==> Choice(stream, pos, count, k) % k == Choice(stream', pos', count, k) % k
  {
    hide Choice;
    if i > 0 {
      DealClosed(stream, pos, count, i - 1);
      DealClosed(stream', pos', count, i - 1);
      PlaceInjective(Deal(stream, pos, count, i - 1), Choice(stream, pos, count, i) % i,
                     Deal(stream', pos', count, i - 1), Choice(stream', pos', count, i) % i);
      DealInjective(stream, pos, stream', pos', count, i - 1);
    }
  }

  lemma PlaceInjective(deck: seq<nat>, j: nat, deck': seq<nat>, j': nat)
    requires Closed(deck) && Closed(deck') && |deck| == |deck'|
    requires j < |deck| && j' < |deck| && Placed(deck, j) == Placed(deck', j')
    ensures j == j' && deck == deck'
  {
    var dealt, dealt', i := Placed(deck, j), Placed(deck', j'), |deck|;
    assert dealt[j] == i && dealt'[j] == i;
    assert dealt[i] == deck[j] && dealt'[i] == deck'[j];
    forall k | 0 <= k < i ensures deck[k] == deck'[k] {
      assert dealt[k] == dealt'[k];
    }
  }

  // ---- Every deck is one cycle ----

  /** Where m steps from card to the card in its place lead, from card 0. */
  ghost function Walk(deck: seq<nat>, m: nat): (v: nat)
    requires Closed(deck)
    ensures v < |deck|
  {
    if m == 0 then 0 else deck[Walk(deck, m - 1)]
  }

  ghost predicate Visits(deck: seq<nat>, v: nat)
    requires Closed(deck)
  {
    exists m: nat :: Walk(deck, m) == v
  }

  lemma {:induction false} WalkGrows(deck: seq<nat>, j: nat, m: nat)
    requires Closed(deck) && j < |deck|
    ensures Closed(Placed(deck, j)) && Visits(Placed(deck, j), Walk(deck, m))
  {
    var dealt := Placed(deck, j);
    if m == 0 {
      assert Walk(dealt, 0) == 0;
    } else {
      WalkGrows(deck, j, m - 1);
      var u := Walk(deck, m - 1);
      var m': nat :| Walk(dealt, m') == u;
      assert Walk(dealt, m' + 1) == dealt[u];
      if u == j {
        assert Walk(dealt, m' + 2) == dealt[|deck|] == deck[j];
      }
    }
  }

  /** From card 0, one step after the other visits every card. */
  lemma {:induction false} DealCycle(stream: nat -> nat, pos: nat, count: nat, i: nat)
    requires i < count
    ensures Closed(Deal(stream, pos, count, i))
    ensures forall v: nat :: v <= i ==> Visits(Deal(stream, pos, count, i), v)
  {
    hide Choice, Visits, Closed;
    DealClosed(stream, pos, count, i);
    if i == 0 {
      VisitsZero(Deal(stream, pos, count, i));
    } else {
      DealCycle(stream, pos, count, i - 1);
      PlaceVisits(Deal(stream, pos, count, i - 1), Choice(stream, pos, count, i) % i);
    }
  }

  lemma VisitsZero(deck: seq<nat>)
    requires Closed(deck)
    ensures Visits(deck, 0)
  {
    assert Walk(deck, 0) == 0;
  }

  lemma PlaceVisits(deck: seq<nat>, j: nat)
    requires Closed(deck) && j < |deck| && forall v: nat :: v < |deck| ==> Visits(deck, v)
    ensures Closed(Placed(deck, j)) && forall v: nat :: v <= |deck| ==> Visits(Placed(deck, j), v)
  {
    var dealt := Placed(deck, j);
    forall v: nat | v <= |deck| ensures Visits(dealt, v) {
      var u := if v < |deck| then v else j;
      assert Visits(deck, u);
      var m: nat :| Walk(deck, m) == u;
      WalkGrows(deck, j, m);
      if v == |deck| {
        var m': nat :| Walk(dealt, m') == j;
        assert Walk(dealt, m' + 1) == dealt[j];
      }
    }
  }

  // ---- The choices are the words' bytes ----

  lemma LowBytes(x: nat)
    ensures x % 0x1_0000 == x % 0x100 + 0x100 * (x / 0x100 % 0x100)
    ensures x / 0x100 / 0x100 == x / 0x1_0000
  {}

  lemma LowHalves(x: nat)
    ensures x % 0x1_0000_0000 == x % 0x1_0000 + 0x1_0000 * (x / 0x1_0000 % 0x1_0000)
    ensures x % 0x100_0000 == x % 0x1_0000 + 0x1_0000 * (x / 0x1_0000 % 0x100)
    ensures x / 0x1_0000 / 0x100 == x / 0x100_0000
  {}

  lemma BytesOfWord(rv: nat)
    ensures var f0, f1, f2, f3 := Field(rv, 8, 0), Field(rv, 8, 1), Field(rv, 8, 2), Field(rv, 8, 3);
            && rv % 0x1_0000_0000 == f0 + 0x100 * f1 + 0x1_0000 * f2 + 0x100_0000 * f3
            && rv % 0x100_0000 == f0 + 0x100 * f1 + 0x1_0000 * f2
            && rv / 0x100 % 0x1_0000 == f1 + 0x100 * f2
            && rv / 0x1_0000 % 0x100 == f2
  {
    LowHalves(rv);
    LowBytes(rv);
    LowBytes(rv / 0x100);
    LowBytes(rv / 0x1_0000);
  }

  lemma HalvesOfWord(rv: nat)
    ensures rv % 0x1_0000_0000 == Field(rv, 16, 0) + 0x1_0000 * Field(rv, 16, 1)
  {
    LowHalves(rv);
  }

  /** The number these bytes spell, lowest first. */
  function Spell(bytes: seq<nat>, base: nat): nat {
    if bytes == [] then 0 else bytes[0] + base * Spell(bytes[1..], base)
  }

  /** The choices for up to n cards from card i on. */
  function Choices(stream: nat -> nat, pos: nat, count: nat, i: nat, n: nat): (cs: seq<nat>)
    requires 1 <= i && i + n <= count
    ensures |cs| == n && forall k :: 0 <= k < n ==> cs[k] == Choice(stream, pos, count, i + k)
    decreases n
  {
    if n == 0 then [] else [Choice(stream, pos, count, i)] + Choices(stream, pos, count, i + 1, n - 1)
  }

  lemma SpellNext(x: nat, rest: seq<nat>, base: nat)
    ensures Spell([x] + rest, base) == x + base * Spell(rest, base) && Spell([], base) == 0
  {
    assert ([x] + rest)[1..] == rest;
  }

  lemma SpellFew(a: nat, b: nat, c: nat, d: nat, base: nat)
    requires base == 0x100 || base == 0x1_0000
    ensures Spell([a], base) == a && Spell([a, b], base) == a + base * b
    ensures Spell([a, b, c], base) == a + base * (b + base * c)
    ensures Spell([a, b, c, d], base) == a + base * (b + base * (c + base * d))
  {
    hide Spell;
    SpellNext(a, [], base);
    SpellNext(b, [], base);
    SpellNext(c, [], base);
    SpellNext(d, [], base);
    SpellNext(a, [b], base);
    SpellNext(b, [c], base);
    SpellNext(c, [d], base);
    SpellNext(a, [b, c], base);
    SpellNext(b, [c, d], base);
    SpellNext(a, [b, c, d], base);
    assert [a] + [] == [a] && [b] + [] == [b] && [c] + [] == [c] && [d] + [] == [d];
    assert [a] + [b] == [a, b] && [b] + [c] == [b, c] && [c] + [d] == [c, d];
    assert [a] + [b, c] == [a, b, c] && [b] + [c, d] == [b, c, d] && [a] + [b, c, d] == [a, b, c, d];
  }

  /** A word places four cards of a small deck, its lowest byte the first; the last one to three cards take the bytes
      that end below its highest. */
  lemma WordPlacesBytes(stream: nat -> nat, pos: nat, count: nat, round: nat)
    requires count <= 256 && 1 + 4 * round < count
    ensures var i, rv := 1 + 4 * round, stream(pos + round);
            if i + 4 <= count then rv % 0x1_0000_0000 == Spell(Choices(stream, pos, count, i, 4), 0x100)
            else if i + 3 == count then rv % 0x100_0000 == Spell(Choices(stream, pos, count, i, 3), 0x100)
            else if i + 2 == count then rv / 0x100 % 0x1_0000 == Spell(Choices(stream, pos, count, i, 2), 0x100)
            else rv / 0x1_0000 % 0x100 == Spell(Choices(stream, pos, count, i, 1), 0x100)
    ensures forall k :: 1 <= k < count ==> Choice(stream, pos, count, k) < 0x100
  {
    hide Field, Choice, Spell;
    ByteChoices(stream, pos, count, round);
    var i, rv := 1 + 4 * round, stream(pos + round);
    BytesOfWord(rv);
    var f0, f1, f2, f3 := Field(rv, 8, 0), Field(rv, 8, 1), Field(rv, 8, 2), Field(rv, 8, 3);
    SpellFew(f0, f1, f2, f3, 0x100);
    SpellFew(f1, f2, f3, 0, 0x100);
    SpellFew(f2, f3, 0, 0, 0x100);
    if i + 4 <= count {
      assert Choices(stream, pos, count, i, 4) == [f0, f1, f2, f3];
    } else if i + 3 == count {
      assert Choices(stream, pos, count, i, 3) == [f0, f1, f2];
    } else if i + 2 == count {
      assert Choices(stream, pos, count, i, 2) == [f1, f2];
    } else {
      assert Choices(stream, pos, count, i, 1) == [f2];
    }
    forall k | 1 <= k < count ensures Choice(stream, pos, count, k) < 0x100 {
      ChoiceBelow(stream, pos, count, k);
    }
  }

  lemma ChoiceBelow(stream: nat -> nat, pos: nat, count: nat, i: nat)
    requires 1 <= i < count
    ensures Choice(stream, pos, count, i) < if count <= 256 then 0x100 else 0x1_0000
  {}

  /** And two cards of a large deck, its lower half the first. */
  lemma WordPlacesHalves(stream: nat -> nat, pos: nat, count: nat, round: nat)
    requires count > 256 && 1 + 2 * round < count
    ensures var i, rv := 1 + 2 * round, stream(pos + round);
            if i + 2 <= count then rv % 0x1_0000_0000 == Spell(Choices(stream, pos, count, i, 2), 0x1_0000)
            else rv % 0x1_0000 == Spell(Choices(stream, pos, count, i, 1), 0x1_0000)
    ensures forall k :: 1 <= k < count ==> Choice(stream, pos, count, k) < 0x1_0000
  {
    hide Choice, Spell;
    HalfChoices(stream, pos, count, round);
    var i, rv := 1 + 2 * round, stream(pos + round);
    HalvesOfWord(rv);
    var f0, f1 := Field(rv, 16, 0), Field(rv, 16, 1);
    SpellFew(f0, f1, 0, 0, 0x1_0000);
    if i + 2 <= count {
      assert Choices(stream, pos, count, i, 2) == [f0, f1];
    } else {
      assert Choices(stream, pos, count, i, 1) == [f0];
    }
    forall k | 1 <= k < count ensures Choice(stream, pos, count, k) < 0x1_0000 {
      ChoiceBelow(stream, pos, count, k);
    }
  }
}
