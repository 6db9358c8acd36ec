/** w2_refs: between two calls, the weight-2 reference count of every unmarked column is the number of rows that have it
    and one other column left (src/fec/Wirehair.cpp:1090-1295). */
module PeelWeights {
  import opened PeelState

  /** The rows with two columns left of which c is one. */
  ghost function Pairs(unvisited: seq<set<nat>>, c: nat): set<nat> {
    set r: nat | r < |unvisited| && |unvisited[r]| == 2 && c in unvisited[r]
  }

  ghost predicate Weighed(cols: seq<PeelColumn>, unvisited: seq<set<nat>>) {
    forall c :: 0 <= c < |cols| && cols[c].mark == Todo ==> cols[c].slot == |Pairs(unvisited, c)|
  }

  /** Row r is not counted yet. */
  ghost predicate WeighedBut(cols: seq<PeelColumn>, unvisited: seq<set<nat>>, r: nat) {
    forall c :: 0 <= c < |cols| && cols[c].mark == Todo ==> cols[c].slot == |Pairs(unvisited, c) - {r}|
  }

  /** The columns of a row that is being finished do not matter any more. */
  ghost predicate WeighedApart(cols: seq<PeelColumn>, unvisited: seq<set<nat>>, colSet: set<nat>) {
    forall c :: 0 <= c < |cols| && cols[c].mark == Todo && c !in colSet ==> cols[c].slot == |Pairs(unvisited, c)|
  }

  /** The same of a whole state: between visits, while row r waits to be counted, and while it is being finished. */
  ghost predicate Counts(s: State) {
    Weighed(s.cols, s.unvisited)
  }

  ghost predicate CountsBut(s: State, r: nat) {
    WeighedBut(s.cols, s.unvisited, r)
  }

  ghost predicate CountsApart(s: State, r: nat) {
    r < |s.colsOf| && WeighedApart(s.cols, s.unvisited, s.colsOf[r])
  }

  lemma NothingWeighed(cols: seq<PeelColumn>)
    requires forall c :: 0 <= c < |cols| ==> cols[c].slot == 0
    ensures Weighed(cols, [])
  {
    forall c: nat ensures Pairs([], c) == {} {}
  }

  // ---- Visits ----

  lemma VisitPairs(unvisited: seq<set<nat>>, r: nat, c: nat, x: nat)
    requires r < |unvisited| && c in unvisited[r] && x != c
    ensures var u, unvisited' := unvisited[r], unvisited[r := unvisited[r] - {c}];
            && (x !in u ==> Pairs(unvisited', x) == Pairs(unvisited, x))
            && (|u| == 3 ==> Pairs(unvisited', x) - {r} == Pairs(unvisited, x))
            && (|u| > 3 ==> Pairs(unvisited', x) == Pairs(unvisited, x))
  {
    assert |unvisited[r] - {c}| == |unvisited[r]| - 1;
  }

  /** Column c, which is marked, leaves row r's columns. */
  lemma VisitWeighs(cols: seq<PeelColumn>, unvisited: seq<set<nat>>, r: nat, c: nat)
    requires Weighed(cols, unvisited) && r < |unvisited| && c in unvisited[r]
    requires c < |cols| ==> cols[c].mark != Todo
    ensures var u, unvisited' := unvisited[r], unvisited[r := unvisited[r] - {c}];
            && (forall colSet :: u <= colSet ==> WeighedApart(cols, unvisited', colSet))
            && (|u| == 3 ==> WeighedBut(cols, unvisited', r))
            && (|u| > 3 || (forall x :: x in u && x < |cols| ==> cols[x].mark != Todo) ==> Weighed(cols, unvisited'))
  {
    forall x | 0 <= x < |cols| && cols[x].mark == Todo
      ensures var u, unvisited' := unvisited[r], unvisited[r := unvisited[r] - {c}];
              && (x !in u ==> Pairs(unvisited', x) == Pairs(unvisited, x))
              && (|u| == 3 ==> Pairs(unvisited', x) - {r} == Pairs(unvisited, x))
              && (|u| > 3 ==> Pairs(unvisited', x) == Pairs(unvisited, x))
    {
      VisitPairs(unvisited, r, c, x);
    }
  }

  // ---- Rows with two columns left ----

  /** cols' is cols with one more reference for each of the count columns stored. */
  ghost predicate Noted(cols: seq<PeelColumn>, cols': seq<PeelColumn>, count: nat, x: nat, y: nat) {
    && |cols'| == |cols|
    && forall c :: 0 <= c < |cols| ==>
         && cols'[c].mark == cols[c].mark
         && cols'[c].slot == cols[c].slot + if (count >= 1 && c == x) || (count == 2 && c == y) then 1 else 0
  }

  lemma NotedNone(cols: seq<PeelColumn>, x: nat, y: nat)
    ensures Noted(cols, cols, 0, x, y)
  {}

  lemma NotedNext(cols0: seq<PeelColumn>, cols: seq<PeelColumn>, count: nat, x: nat, y: nat, c: nat)
    requires Noted(cols0, cols, count, x, y) && count < 2 && c < |cols| && (count == 1 ==> c != x)
    ensures Noted(cols0, cols[c := cols[c].(slot := cols[c].slot + 1)], count + 1,
                  if count == 0 then c else x, if count == 0 then y else c)
  {}

  /** Counting the two columns of row r. */
  lemma PairWeighs(cols: seq<PeelColumn>, cols': seq<PeelColumn>, unvisited: seq<set<nat>>, r: nat, x: nat, y: nat)
    requires WeighedBut(cols, unvisited, r) && Noted(cols, cols', 2, x, y)
    requires r < |unvisited| && unvisited[r] == {x, y} && |unvisited[r]| == 2
    ensures Weighed(cols', unvisited)
  {
    forall c | 0 <= c < |cols'| && cols'[c].mark == Todo ensures cols'[c].slot == |Pairs(unvisited, c)| {
      assert (r in Pairs(unvisited, c)) <==> c == x || c == y;
      if c == x || c == y {
        assert Pairs(unvisited, c) == (Pairs(unvisited, c) - {r}) + {r};
      } else {
        assert Pairs(unvisited, c) == Pairs(unvisited, c) - {r};
      }
    }
  }

  /** With fewer than two unmarked columns left, the row is about to be finished. */
  lemma FewWeigh(cols: seq<PeelColumn>, cols': seq<PeelColumn>, unvisited: seq<set<nat>>, r: nat, count: nat, x: nat,
                 y: nat, colSet: set<nat>)
    requires WeighedBut(cols, unvisited, r) && Noted(cols, cols', count, x, y) && count <= 1
    requires r < |unvisited| && unvisited[r] <= colSet && (count == 1 ==> x in colSet)
    ensures WeighedApart(cols', unvisited, colSet)
  {
    forall c | 0 <= c < |cols'| && cols'[c].mark == Todo && c !in colSet
      ensures cols'[c].slot == |Pairs(unvisited, c)|
    {
      assert Pairs(unvisited, c) == Pairs(unvisited, c) - {r};
    }
  }

  lemma ManyWeigh(cols: seq<PeelColumn>, unvisited: seq<set<nat>>, r: nat)
    requires WeighedBut(cols, unvisited, r) && r < |unvisited| && |unvisited[r]| > 2
    ensures Weighed(cols, unvisited)
  {
    forall c | 0 <= c < |cols| && cols[c].mark == Todo ensures cols[c].slot == |Pairs(unvisited, c)| {
      assert Pairs(unvisited, c) == Pairs(unvisited, c) - {r};
    }
  }

  /** A row that is added is not counted yet. */
  lemma NewWeighs(cols: seq<PeelColumn>, unvisited: seq<set<nat>>, u: set<nat>)
    requires Weighed(cols, unvisited)
    ensures WeighedBut(cols, unvisited + [u], |unvisited|)
  {
    forall c: nat ensures Pairs(unvisited + [u], c) - {|unvisited|} == Pairs(unvisited, c) {}
  }

  // ---- Marks ----

  /** Finishing a row marks the last of its columns. */
  lemma MarkWeighs(cols: seq<PeelColumn>, cols': seq<PeelColumn>, unvisited: seq<set<nat>>, colSet: set<nat>)
    requires WeighedApart(cols, unvisited, colSet) && |cols'| == |cols| && AllMarked(cols', colSet)
    requires forall c :: 0 <= c < |cols| && cols'[c].mark == Todo ==> cols'[c] == cols[c]
    ensures Weighed(cols', unvisited)
  {}

  lemma FewerWeigh(cols: seq<PeelColumn>, cols': seq<PeelColumn>, unvisited: seq<set<nat>>)
    requires Weighed(cols, unvisited) && |cols'| == |cols|
    requires forall c :: 0 <= c < |cols| && cols'[c].mark == Todo ==> cols'[c] == cols[c]
    ensures Weighed(cols', unvisited)
  {}
}
