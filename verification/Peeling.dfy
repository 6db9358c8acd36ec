/** Part 1 of the Wirehair solver: opportunistic and greedy peeling (src/fec/Wirehair.cpp). */
module Peeling {
  import opened ColumnIterator
  import opened CheckMatrix
  import opened PeelState
  import opened PeelFeed
  import opened PeelWeights

  /** Writing peel_row into a solved column leaves the invariant alone. */
  lemma SlotKeeps(s: State, t: State, r: nat, c: nat, v: nat, busy: set<nat>)
    requires Inv(s, busy) && c < |s.cols| && r < |s.colsOf|
    requires t == s.(cols := s.cols[c := s.cols[c].(slot := v)])
    ensures Inv(t, busy)
  {
    hide RefsOk, ListsOk, MarksOk, PeeledOk, DeferredOk, CountOk;
    InvRow(s, r, busy);
    TouchedKeeps(s, t, r, busy);
  }

  lemma SlotExtends(s0: State, s: State, r: nat, c: nat, busy: set<nat>)
    requires MarkOk(s0, r, c) && s0.cols[c].mark == Todo && |s0.order| == |s0.solved|
    requires Extends(AfterMark(s0, r, c), s, busy) && Remembered(AfterMark(s0, r, c), s)
    requires Distinct(s.solved) && s.cols[c].mark != Todo
    ensures Extends(s0, s.(cols := s.cols[c := s.cols[c].(slot := r)]), busy)
    ensures Remembered(s0, s.(cols := s.cols[c := s.cols[c].(slot := r)]))
  {
    var m := AfterMark(s0, r, c);
    var t := s.(cols := s.cols[c := s.cols[c].(slot := r)]);
    assert m.order[|s0.order|] == r && m.solved[|s0.order|] == c;
    forall i | |s0.order| <= i < |t.order|
      ensures t.solved[i] < |t.cols| && t.cols[t.solved[i]].mark != Todo && t.cols[t.solved[i]].slot == t.order[i]
    {
      if i > |s0.order| {
        assert t.solved[i] != t.solved[|s0.order|];
      }
    }
  }

  /** What a visit of row r by the avalanche of c does: c leaves r's unvisited columns, everything else only grows. */
  ghost predicate Visited(s: State, t: State, c: nat, r: nat, busy: set<nat>) {
    && Extends(s, t, busy) && Remembered(s, t)
    && r < |t.unvisited| && c !in t.unvisited[r]
    && |t.unvisited| == |s.unvisited|
    && forall r' :: 0 <= r' < |s.unvisited| && r' != r ==> (c in t.unvisited[r'] <==> c in s.unvisited[r'])
  }

  /** Row r may be finished now: every counter but its own is in order, and its own will stay quiet. */
  ghost predicate Finishing(s: State, r: nat, busy: set<nat>) {
    InvBut(s, busy, r) && Live(s, r) && RowCounter(s, r, false, busy)
  }

  /** x is the one column row r can still solve. */
  ghost predicate Solvable(s: State, r: nat, x: nat) {
    && r < |s.colsOf| && x in s.colsOf[r] && x < |s.cols| && s.cols[x].mark == Todo
    && AllMarked(s.cols, s.colsOf[r] - {x})
  }

  lemma {:induction false} VisitCase(s: State, t: State, r: nat, c: nat, busy: set<nat>)
    requires Inv(s, busy + {c}) && c !in busy && r < |s.colsOf| && c in s.unvisited[r]
    requires t == s.(rows := s.rows[r := s.rows[r].(unmarkedCount := Decrement(s.rows[r].unmarkedCount))],
                     unvisited := s.unvisited[r := s.unvisited[r] - {c}])
    ensures Visited(s, t, c, r, busy)
    ensures var k := t.rows[r].unmarkedCount;
            if k == 1 then
              var x := if t.rows[r].slot == c then t.rows[r].unmarked1 else t.rows[r].slot;
              Finishing(t, r, busy + {c}) && x < |t.cols| &&
              if t.cols[x].mark == Todo then Solvable(t, r, x) else AllMarked(t.cols, t.colsOf[r])
            else if k == 2 then HalfDone(t, r, busy + {c})
            else Inv(t, busy + {c})
  {
    hide RefsOk, ListsOk, MarksOk, PeeledOk, DeferredOk, CountOk;
    VisitRow(s, t, r, c, busy + {c});
  }

  /** The counter of row r just reached 2; which two columns are left has to be looked up. */
  ghost predicate HalfDone(s: State, r: nat, busy: set<nat>) {
    && InvBut(s, busy, r) && Live(s, r) && UnvisitedOk(s.cols, s.colsOf[r], s.unvisited[r], busy)
    && |s.unvisited[r]| == 2 && s.rows[r].unmarkedCount == 2
  }

  /** peel_row of every solved column. */
  ghost predicate Recalled(cols: seq<PeelColumn>, order: seq<nat>, solved: seq<nat>) {
    && |order| == |solved|
    && forall i :: 0 <= i < |order| ==>
         solved[i] < |cols| && cols[solved[i]].mark == Solved && cols[solved[i]].slot == order[i]
  }

  lemma IdleBounds(pr: Params, s: State)
    requires Inv(s, {}) && GensOk(pr, s.rows, s.colsOf) && |s.cols| == pr.n
    ensures |s.refs| == pr.n && pr.Valid() && |s.unvisited| == |s.colsOf| <= |s.rows|
  {}

  // Writing the id and generator of a row slot not in use yet.
  lemma UnusedRow(pr: Params, s: State, rows: seq<PeelRow>)
    requires Inv(s, {}) && GensOk(pr, s.rows, s.colsOf) && |rows| == |s.rows|
    requires forall i :: 0 <= i < |rows| && i != |s.colsOf| ==> rows[i] == s.rows[i]
    ensures Inv(s.(rows := rows), {}) && GensOk(pr, rows, s.colsOf)
  {
    var t := s.(rows := rows);
    hide DeferredOk, CountOk, SolvesLast, Lists, Distinct, NextOf;
    ChainSame(s.rows, rows, s.headRows, s.order);
    ChainSame(s.rows, rows, s.deferHeadRows, s.deferRows);
    forall r: nat | r < |t.colsOf| ensures RowCounter(t, r, Live(t, r), {}) {
      InvRow(s, r, {});
    }
  }

  /** Row r has just been referenced; count of its columns are unmarked, the first two of them given. */
  ghost predicate Newcomer(s: State, r: nat, count: nat, first: nat, second: nat) {
    && InvBut(s, {}, r) && Live(s, r) && UnvisitedOk(s.cols, s.colsOf[r], s.unvisited[r], {})
    && s.rows[r].unmarkedCount == count == |s.unvisited[r]| < 0x1_0000
    && (count == 1 ==> s.unvisited[r] == {first})
    && (count == 2 ==> s.unvisited[r] == {first, second})
  }

  lemma NewRow(pr: Params, s: State, t: State, g: RowGen, count: nat, first: nat, second: nat)
    requires Inv(s, {}) && GensOk(pr, s.rows, s.colsOf) && |s.cols| == pr.n && RowOk(pr, g)
    requires var r := |s.colsOf|; var all := PeelCols(pr, g);
             && r < |s.rows| == |t.rows| && t.rows[r].gen == g && t.rows[r].unmarkedCount == count
             && (forall i :: 0 <= i < |t.rows| && i != r ==> t.rows[i] == s.rows[i])
             && Referenced(s.refs, t.refs, all, r) && Counted(s.cols, all, count, first, second)
             && t == AfterFeed(s, t.rows, t.refs, ColSet(pr, g), TodoAmong(s.cols, all))
    ensures GensOk(pr, t.rows, t.colsOf) && Newcomer(t, |s.colsOf|, count, first, second)
  {
    hide Inv, InvBut, UnvisitedOk, Live, Referenced, PeelCols, Params.Valid, RowOk;
    var all := PeelCols(pr, g);
    Fed(s, t.rows, t.refs, all, TodoAmong(s.cols, all));
    SubsetSize(TodoAmong(s.cols, all), set c | c in all);
    SeqSetSize(all, set c | c in all);
    SmallWeight(pr, g);
    IdleBounds(pr, s);
  }

  lemma SmallWeight(pr: Params, g: RowGen)
    requires pr.Valid() && RowOk(pr, g)
    ensures |PeelCols(pr, g)| < 0x1_0000
  {}

  ghost function AfterPair(s: State, r: nat, first: nat, second: nat): State
    requires r < |s.rows| && first < |s.cols| && second < |s.cols|
  {
    var cols := s.cols[first := s.cols[first].(slot := s.cols[first].slot + 1)];
    s.(rows := s.rows[r := s.rows[r].(slot := first, unmarked1 := second)],
       cols := cols[second := cols[second].(slot := cols[second].slot + 1)])
  }

  lemma NewcomerCases(pr: Params, s: State, r: nat, count: nat, first: nat, second: nat)
    requires Newcomer(s, r, count, first, second)
    ensures count == 0 ==> Finishing(s, r, {}) && AllMarked(s.cols, s.colsOf[r])
    ensures count == 1 ==> Finishing(s, r, {}) && Solvable(s, r, first)
    ensures count == 2 ==> first < |s.cols| && second < |s.cols| && r < |s.rows|
    ensures count == 2 ==> var t := AfterPair(s, r, first, second); Inv(t, {}) && Extends(s, t, {}) && Remembered(s, t)
    ensures count > 2 ==> Inv(s, {})
    ensures Extends(s, s, {}) && Remembered(s, s)
  {
    hide RefsOk, ListsOk, MarksOk, PeeledOk, DeferredOk;
    if count == 2 {
      TouchedKeeps(s, AfterPair(s, r, first, second), r, {});
    }
  }

  lemma Settled(pr: Params, s: State, t: State, busy: set<nat>)
    requires GensOk(pr, s.rows, s.colsOf)
    requires Extends(s, t, busy) && Remembered(s, t) && Inv(t, busy)
    requires Recalled(s.cols, s.order, s.solved)
    ensures GensOk(pr, t.rows, t.colsOf) && Recalled(t.cols, t.order, t.solved) && |t.cols| == |s.cols|
    ensures |t.rows| == |s.rows|
    ensures forall r :: 0 <= r < |t.rows| ==> t.rows[r].gen == s.rows[r].gen && t.rows[r].id == s.rows[r].id
  {
    hide RefsOk, ListsOk, PeeledOk, DeferredOk, CountersBut;
    forall i | 0 <= i < |t.order|
      ensures t.solved[i] < |t.cols| && t.cols[t.solved[i]].mark == Solved && t.cols[t.solved[i]].slot == t.order[i]
    {
      if i < |s.order| {
        assert t.order[i] == s.order[i] && t.solved[i] == s.solved[i];
      }
      assert t.solved[i] in t.solved;
    }
  }

  ghost predicate ColChain(cols: seq<PeelColumn>, head: nat, list: seq<nat>) {
    && (forall i :: 0 <= i < |list| ==> list[i] < |cols| && cols[list[i]].mark != Todo)
    && head == (if list == [] then LIST_TERM else list[0])
    && forall i :: 0 <= i < |list| ==> cols[list[i]].next == NextOf(list, i)
  }

  lemma ChainNone(cols: seq<PeelColumn>)
    ensures ColChain(cols, LIST_TERM, [])
  {}

  lemma ShortList(pr: Params)
    requires pr.Valid()
    ensures pr.n < LIST_TERM
  {}

  lemma ColChainKept(s: State, t: State, head: nat, list: seq<nat>)
    requires Extends(s, t, {}) && ColChain(s.cols, head, list)
    ensures ColChain(t.cols, head, list)
  {}

  lemma DeferColsKept(s: State, t: State)
    requires Extends(s, t, {})
    ensures t.deferCols == s.deferCols
    ensures s.order <= t.order
  {}

  ghost function AfterDeferColumn(s: State, c: nat, next: nat): State
    requires c < |s.cols|
  {
    s.(cols := s.cols[c := s.cols[c].(mark := Deferred, next := next)], deferCols := [c] + s.deferCols)
  }

  lemma ColChainPush(cols: seq<PeelColumn>, cols': seq<PeelColumn>, head: nat, list: seq<nat>, c: nat)
    requires ColChain(cols, head, list) && c < |cols| && cols[c].mark == Todo
    requires cols' == cols[c := cols[c].(mark := Deferred, next := head)]
    ensures ColChain(cols', c, [c] + list)
  {
    var list' := [c] + list;
    forall i | 0 <= i < |list'|
      ensures list'[i] < |cols'| && cols'[list'[i]].mark != Todo && cols'[list'[i]].next == NextOf(list', i)
    {
      if i > 0 {
        assert list'[i] == list[i - 1];
        assert cols[list[i - 1]].next == NextOf(list, i - 1);
      }
    }
  }

  lemma SolvesLastDefer(cols: seq<PeelColumn>, cols': seq<PeelColumn>, colSet: set<nat>, solved: seq<nat>, i: nat,
                        c: nat)
    requires i < |solved| && SolvesLast(cols, colSet, solved, i)
    requires c < |cols| == |cols'| && cols[c].mark == Todo && cols'[c].mark == Deferred
    requires forall j :: 0 <= j < |cols| && j != c ==> cols'[j] == cols[j]
    ensures SolvesLast(cols', colSet, solved, i)
  {}

  lemma {:induction false} DeferColumnStructure(s: State, c: nat, next: nat)
    requires Structure(s, {}) && c < |s.cols| && s.cols[c].mark == Todo
    ensures Structure(AfterDeferColumn(s, c, next), {c})
  {
    hide SolvesLast, AllMarked, Chain, Lists, Distinct;
    var t := AfterDeferColumn(s, c, next);
    forall i | 0 <= i < |s.order| ensures SolvesLast(t.cols, s.colsOf[s.order[i]], s.solved, i) {
      SolvesLastDefer(s.cols, t.cols, s.colsOf[s.order[i]], s.solved, i, c);
    }
    forall i | 0 <= i < |s.deferRows| ensures AllMarked(t.cols, s.colsOf[s.deferRows[i]]) {
      MarkedStays(s.cols, t.cols, s.colsOf[s.deferRows[i]]);
    }
    DistinctPush(c, s.deferCols);
    assert forall c' :: c' in t.deferCols <==> c' == c || c' in s.deferCols;
    assert MarksOk(t);
  }

  lemma MarkedStays(cols: seq<PeelColumn>, cols': seq<PeelColumn>, colSet: set<nat>)
    requires AllMarked(cols, colSet) && |cols'| == |cols|
    requires forall j :: 0 <= j < |cols| && cols[j].mark != Todo ==> cols'[j].mark != Todo
    ensures AllMarked(cols', colSet)
  {}

  lemma DistinctPush(c: nat, list: seq<nat>)
    requires Distinct(list)
    ensures c !in list ==> Distinct([c] + list)
  {}

  lemma {:induction false} DeferColumnKeeps(pr: Params, s: State, c: nat, head: nat, list: seq<nat>)
    requires Inv(s, {}) && GensOk(pr, s.rows, s.colsOf) && |s.cols| == pr.n
    requires c < |s.cols| && s.cols[c].mark == Todo && ColChain(s.cols, head, list)
    requires Recalled(s.cols, s.order, s.solved)
    ensures c < |s.refs|
    ensures var t := AfterDeferColumn(s, c, head);
            && Inv(t, {c}) && |TodoSet(t.cols)| < |TodoSet(s.cols)| && ColChain(t.cols, c, [c] + list)
            && Recalled(t.cols, t.order, t.solved)
            && forall r :: 0 <= r < |t.colsOf| && c in t.colsOf[r] ==> r < |t.unvisited| && c in t.unvisited[r]
  {
    hide RefsOk, MarksOk, PeeledOk, DeferredOk, CountOk, ListsOk, NextOf;
    var t := AfterDeferColumn(s, c, head);
    DeferColumnStructure(s, c, head);
    forall r: nat | r < |t.colsOf|
      ensures RowCounter(t, r, Live(t, r), {c}) && (c in t.colsOf[r] ==> c in t.unvisited[r])
    {
      InvRow(s, r, {});
    }
    ColChainPush(s.cols, t.cols, head, list, c);
    assert c in TodoSet(s.cols);
    SubsetSize(TodoSet(t.cols), TodoSet(s.cols) - {c});
  }

  /** With every column marked no row is live, and rows and columns are each split in two. */
  lemma AllFinished(s: State)
    requires Inv(s, {}) && forall c :: 0 <= c < |s.cols| ==> s.cols[c].mark != Todo
    ensures forall r: nat :: r < |s.colsOf| ==> r in s.order || r in s.deferRows
    ensures |s.order| + |s.deferRows| == |s.colsOf| && |s.order| + |s.deferCols| == |s.cols|
  {
    forall r: nat | r < |s.colsOf| ensures r in s.order || r in s.deferRows {
      InvRow(s, r, {});
      NotLive(s, r);
    }
    hide RefsOk, PeeledOk, DeferredOk, CountersBut, Chain;
    Partition(s.order, s.deferRows, |s.colsOf|);
    Partition(s.solved, s.deferCols, |s.cols|);
  }

  lemma NotLive(s: State, r: nat)
    requires Shape(s) && r < |s.colsOf| && RowCounter(s, r, Live(s, r), {})
    requires forall c :: 0 <= c < |s.cols| ==> s.cols[c].mark != Todo
    ensures !Live(s, r)
  {
    if c :| c in s.unvisited[r] {
    } else {
      assert s.unvisited[r] == {};
    }
  }

  lemma Partition(a: seq<nat>, b: seq<nat>, n: nat)
    requires Distinct(a) && Distinct(b) && forall x :: x in a ==> x !in b
    requires forall x: nat :: x < n <==> x in a || x in b
    ensures |a| + |b| == n
  {
    var sa, sb := set x | x in a, set x | x in b;
    DistinctSize(a, sa);
    DistinctSize(b, sb);
    assert sa + sb == Below(n);
    assert |sa + sb| == |sa| + |sb|;
  }

  lemma CountNone(cols: seq<PeelColumn>)
    ensures Counted(cols, [], 0, 0, 0)
  {
    assert TodoAmong(cols, []) == {};
  }

  lemma OnlyAt(all: seq<nat>, i: nat, k: nat)
    requires Distinct(all) && i <= k < |all| && all[i] == all[k]
    ensures i == k
  {}

  /** The reference lists of the columns seen have room. */
  ghost predicate RoomIn(base: seq<seq<nat>>, seen: seq<nat>) {
    forall c :: c in seen && c < |base| ==> |base[c]| < CAT_REF_LIST_MAX
  }

  lemma RoomOne(base: seq<seq<nat>>, all: seq<nat>, i: nat)
    requires i < |all| && all[i] < |base| && RoomIn(base, all[..i])
    ensures if |base[all[i]]| < CAT_REF_LIST_MAX then RoomIn(base, all[..i + 1])
            else exists c :: c in all && c < |base| && |base[c]| >= CAT_REF_LIST_MAX
  {
    assert all[..i + 1] == all[..i] + [all[i]];
    assert all[i] in all;
  }

  lemma RoomAll(base: seq<seq<nat>>, all: seq<nat>)
    requires RoomIn(base, all)
    ensures !exists c :: c in all && c < |base| && |base[c]| >= CAT_REF_LIST_MAX
  {}

  lemma ReferencedNone(base: seq<seq<nat>>, r: nat)
    ensures Referenced(base, base, [], r) && RoomIn(base, [])
  {}

  /** c is the unmarked column in most weight-2 rows, among those the one in most rows, and among those the last. */
  ghost predicate Best(s: State, c: nat) {
    && |s.refs| == |s.cols| && c < |s.cols| && s.cols[c].mark == Todo
    && forall d :: 0 <= d < |s.cols| && s.cols[d].mark == Todo && d != c ==>
         s.cols[d].slot < s.cols[c].slot || (s.cols[d].slot == s.cols[c].slot &&
         if d < c then |s.refs[d]| <= |s.refs[c]| else |s.refs[d]| < |s.refs[c]|)
  }

  /** From s on, the columns chosen, last one first, were deferred: each the best in its turn, when what the ones before
      it let peel had been peeled. */
  ghost predicate BestFirst(s: State, t: State, chosen: seq<nat>)
    decreases chosen
  {
    if chosen == [] then t == s
    else exists mid: State :: BestFirst(s, mid, chosen[1..]) && Deferral(mid, t, chosen[0])
  }

  /** One deferral, and the peeling it allows. */
  ghost predicate Deferral(s: State, t: State, c: nat) {
    && Inv(s, {}) && Inv(t, {}) && Counts(s) && Best(s, c) && t.deferCols == [c] + s.deferCols && s.order <= t.order
    && t.refs == s.refs && t.colsOf == s.colsOf
  }

  /** Generators and ids are as they were. */
  ghost predicate SameGens(rows: seq<PeelRow>, rows': seq<PeelRow>) {
    && |rows'| == |rows|
    && forall r :: 0 <= r < |rows| ==> rows'[r].gen == rows[r].gen && rows'[r].id == rows[r].id
  }

  lemma SameGensNone(rows: seq<PeelRow>)
    ensures SameGens(rows, rows)
  {}

  lemma SameGensTrans(rows: seq<PeelRow>, rows': seq<PeelRow>, rows'': seq<PeelRow>)
    requires SameGens(rows, rows') && SameGens(rows', rows'')
    ensures SameGens(rows, rows'')
  {}

  lemma BestFirstNone(s: State)
    ensures BestFirst(s, s, [])
  {}

  lemma BestFirstNext(s: State, mid: State, t: State, chosen: seq<nat>, c: nat)
    requires BestFirst(s, mid, chosen) && Deferral(mid, t, c)
    ensures BestFirst(s, t, [c] + chosen)
  {
    assert ([c] + chosen)[1..] == chosen;
  }

  // ---- The weight-2 reference counts ----

  /** A row that is finished has no unmarked column. */
  lemma DoneMarked(s: State, r: nat, busy: set<nat>)
    requires Structure(s, busy) && r < |s.colsOf| && !Live(s, r)
    ensures AllMarked(s.cols, s.colsOf[r])
  {
    hide RefsOk, Chain;
    if r in s.order {
      var i :| 0 <= i < |s.order| && s.order[i] == r;
      forall c | c in s.colsOf[r] ensures c < |s.cols| && s.cols[c].mark != Todo {
        if c in s.solved[..i] {
          assert c in s.solved;
        }
        assert s.solved[i] in s.solved;
      }
    } else {
      var i :| 0 <= i < |s.deferRows| && s.deferRows[i] == r;
    }
  }

  lemma VisitCounts(s: State, t: State, r: nat, c: nat, busy: set<nat>)
    requires Inv(s, busy + {c}) && Counts(s) && r < |s.colsOf| && c in s.unvisited[r]
    requires t == s.(rows := s.rows[r := s.rows[r].(unmarkedCount := Decrement(s.rows[r].unmarkedCount))],
                     unvisited := s.unvisited[r := s.unvisited[r] - {c}])
    ensures var k := t.rows[r].unmarkedCount;
            if k == 1 then CountsApart(t, r) else if k == 2 then CountsBut(t, r) else Counts(t)
  {
    hide RefsOk, ListsOk, MarksOk, PeeledOk, DeferredOk, Weighed, WeighedBut, WeighedApart;
    InvRow(s, r, busy + {c});
    VisitWeighs(s.cols, s.unvisited, r, c);
    if !Live(s, r) {
      DoneMarked(s, r, busy + {c});
    }
  }

  lemma LookedCounts(pr: Params, s: State, t: State, r: nat, count: nat, busy: set<nat>)
    requires HalfDone(s, r, busy) && GensOk(pr, s.rows, s.colsOf) && CountsBut(s, r)
    requires Regenerated(pr, s.rows, t.rows, s.cols, t.cols, r, s.unvisited[r], count)
    requires t == s.(rows := t.rows, cols := t.cols)
    ensures if count == 2 then Counts(t) else CountsApart(t, r)
  {
    hide RefsOk, ListsOk, MarksOk, PeeledOk, DeferredOk, CountersBut, Weighed, WeighedBut, WeighedApart, Noted;
    if count == 2 {
      PairWeighs(s.cols, t.cols, s.unvisited, r, t.rows[r].slot, t.rows[r].unmarked1);
    } else {
      FewWeigh(s.cols, t.cols, s.unvisited, r, count, t.rows[r].slot, t.rows[r].unmarked1, s.colsOf[r]);
    }
  }

  lemma ZeroedCounts(s: State, t: State, r: nat)
    requires CountsApart(s, r) && t.cols == s.cols && t.unvisited == s.unvisited && t.colsOf == s.colsOf
    ensures CountsApart(t, r)
  {}

  lemma SameCounts(s: State, t: State)
    requires Counts(s) && t.cols == s.cols && t.unvisited == s.unvisited
    ensures Counts(t)
  {}

  lemma MarkCounts(s: State, r: nat, c: nat)
    requires CountsApart(s, r) && Solvable(s, r, c) && MarkOk(s, r, c)
    ensures Counts(AfterMark(s, r, c))
  {
    hide Weighed, WeighedApart;
    forall x | x in s.colsOf[r] && x != c ensures x < |s.cols| && s.cols[x].mark != Todo {
      assert x in s.colsOf[r] - {c};
    }
    MarkWeighs(s.cols, AfterMark(s, r, c).cols, s.unvisited, s.colsOf[r]);
  }

  lemma SolvedCounts(s: State, t: State, c: nat)
    requires Counts(s) && c < |s.cols| == |t.cols| && t.unvisited == s.unvisited
    requires t.cols == s.cols[c := t.cols[c]] && t.cols[c].mark != Todo
    ensures Counts(t)
  {
    FewerWeigh(s.cols, t.cols, s.unvisited);
  }

  lemma DeferCounts(s: State, c: nat, next: nat)
    requires Counts(s) && c < |s.cols|
    ensures Counts(AfterDeferColumn(s, c, next))
  {
    FewerWeigh(s.cols, AfterDeferColumn(s, c, next).cols, s.unvisited);
  }

  lemma NewCounts(s: State, t: State)
    requires Counts(s) && t.cols == s.cols && |t.unvisited| == |s.unvisited| + 1 && s.unvisited <= t.unvisited
    ensures CountsBut(t, |s.unvisited|)
  {
    NewWeighs(s.cols, s.unvisited, t.unvisited[|s.unvisited|]);
    assert t.unvisited == s.unvisited + [t.unvisited[|s.unvisited|]];
  }

  lemma NewcomerCounts(s: State, r: nat, count: nat, first: nat, second: nat)
    requires Newcomer(s, r, count, first, second) && CountsBut(s, r)
    ensures count <= 1 ==> CountsApart(s, r)
    ensures count == 2 ==>
              first < |s.cols| && second < |s.cols| && r < |s.rows| && Counts(AfterPair(s, r, first, second))
    ensures count > 2 ==> Counts(s)
  {
    hide RefsOk, ListsOk, MarksOk, PeeledOk, DeferredOk, CountersBut, Weighed, WeighedBut, WeighedApart;
    if count == 2 {
      PairWeighs(s.cols, AfterPair(s, r, first, second).cols, s.unvisited, r, first, second);
    } else if count > 2 {
      ManyWeigh(s.cols, s.unvisited, r);
    } else {
      NotedNone(s.cols, 0, 0);
      FewWeigh(s.cols, s.cols, s.unvisited, r, 0, 0, 0, s.colsOf[r]);
    }
  }

  class Peeler {
    const pr: Params
    const capacity: nat  // rows the workspace holds: _block_count + _extra_count

    var rows: seq<PeelRow>
    var cols: seq<PeelColumn>
    var refs: seq<seq<nat>>
    var headRows: nat
    var tailRows: nat
    var deferHeadRows: nat
    var deferHeadColumns: nat
    var deferCount: nat
    ghost var colsOf: seq<set<nat>>
    ghost var order: seq<nat>
    ghost var solved: seq<nat>
    ghost var deferRows: seq<nat>
    ghost var deferCols: seq<nat>
    ghost var unvisited: seq<set<nat>>

    ghost function View(): State
      reads this
    {
      State(rows, cols, refs, headRows, tailRows, deferHeadRows, colsOf, order, solved, deferRows, deferCols, unvisited)
    }

    constructor (pr: Params, capacity: nat)
      requires pr.Valid() && pr.n <= capacity < LIST_TERM
      ensures this.pr == pr && this.capacity == capacity
      ensures Idle() && colsOf == [] && order == [] && deferRows == [] && deferCols == []
    {
      this.pr := pr;
      this.capacity := capacity;
      rows := seq(capacity, _ => PeelRow(RowGen(0, 0, 0, 0, 0), 0, 0, 0, 0, 0, false));
      cols := seq(pr.n, _ => PeelColumn(0, 0, Todo));
      refs := seq(pr.n, _ => []);
      headRows, tailRows, deferHeadRows := LIST_TERM, LIST_TERM, LIST_TERM;
      deferHeadColumns, deferCount := LIST_TERM, 0;
      colsOf, order, solved, deferRows, deferCols, unvisited := [], [], [], [], [], [];
      new;
      NothingWeighed(cols);
    }

    /** Adds slot rowI to the reference list of each column of its row and counts the unmarked ones. */
    method ReferenceRow(rowI: nat) returns (ok: bool, count: nat, first: nat, second: nat)
      requires pr.Valid() && rowI < |rows| && RowOk(pr, rows[rowI].gen) && |cols| == |refs| == pr.n
      modifies this`refs
      ensures !ok <==> exists c :: c in PeelCols(pr, rows[rowI].gen) && c < pr.n && |old(refs)[c]| >= CAT_REF_LIST_MAX
      ensures ok ==> Referenced(old(refs), refs, PeelCols(pr, rows[rowI].gen), rowI)
      ensures ok ==> Counted(cols, PeelCols(pr, rows[rowI].gen), count, first, second)
      ensures !ok ==> refs == old(refs)
    {
      hide Params.Valid, Distinct, PeelCols, NextColumn, Counted, Referenced, RoomIn;
      var g := rows[rowI].gen;
      ghost var base, all := refs, PeelCols(pr, g);
      ColsDistinct(pr, g);
      var weight, column := g.weight, g.x0;
      count, first, second := 0, 0, 0;
      ghost var i := 0;
      assert all[..0] == [];
      CountNone(cols);
      ReferencedNone(base, rowI);
      while true
        invariant 1 <= weight <= g.weight && i == g.weight - weight && column == all[i]
        invariant |refs| == pr.n && Referenced(base, refs, all[..i], rowI)
        invariant Counted(cols, all[..i], count, first, second) && RoomIn(base, all[..i])
        decreases weight
      {
        RoomOne(base, all, i);
        ReferenceOne(base, refs, all, i, rowI);
        CountOne(cols, all, i, count, first, second);
        if |refs[column]| >= CAT_REF_LIST_MAX {
          FixPeelFailure(rowI, column, base, i);
          return false, 0, 0, 0;
        }
        refs := refs[column := refs[column] + [rowI]];
        if cols[column].mark == Todo {
          if count % 2 == 0 {
            first := column;
          } else {
            second := column;
          }
          count := count + 1;
        }
        weight := weight - 1;
        if weight == 0 {
          break;
        }
        PeelColsStep(pr, g, i);
        column := NextColumn(column, g.a, pr.n, pr.p);
        i := i + 1;
      }
      assert all[..i + 1] == all;
      RoomAll(base, all);
      ok := true;
    }

    /** Takes the references of row rowI back, up to the column whose list was full. */
    method FixPeelFailure(rowI: nat, failColumn: nat, ghost base: seq<seq<nat>>, ghost k: nat)
      requires pr.Valid() && rowI < |rows| && RowOk(pr, rows[rowI].gen) && |refs| == pr.n
      requires k < rows[rowI].gen.weight && PeelCols(pr, rows[rowI].gen)[k] == failColumn
      requires Referenced(base, refs, PeelCols(pr, rows[rowI].gen)[..k], rowI)
      modifies this`refs
      ensures refs == base
    {
      hide Params.Valid, Distinct, PeelCols, NextColumn;
      var g := rows[rowI].gen;
      ghost var all := PeelCols(pr, g);
      ColsDistinct(pr, g);
      var column := g.x0;
      ghost var i := 0;
      assert all[0..k] == all[..k];
      while column != failColumn
        invariant i <= k && column == all[i]
        invariant |refs| == |base| && Referenced(base, refs, all[i..k], rowI)
        decreases k - i
      {
        UnreferenceOne(base, refs, all, i, k, rowI);
        refs := refs[column := refs[column][..|refs[column]| - 1]];
        PeelColsStep(pr, g, i);
        column := NextColumn(column, g.a, pr.n, pr.p);
        i := i + 1;
      }
      OnlyAt(all, i, k);
      assert all[i..k] == [];
    }

    /** Accepts the row `draw` generates into slot rowI; refused, with every reference taken back, when a list is
        full. */
    method OpportunisticPeeling(rowI: nat, id: nat, draw: Draw) returns (ok: bool)
      requires Idle() && rowI == |colsOf| < capacity
      modifies this`rows, this`cols, this`refs, this`headRows, this`tailRows, this`deferHeadRows
      modifies this`order, this`solved, this`deferRows, this`unvisited, this`colsOf
      ensures Idle() && rows[rowI].gen == RowFor(pr, draw) && rows[rowI].id == id
      ensures forall r :: 0 <= r < rowI ==> rows[r].gen == old(rows)[r].gen && rows[r].id == old(rows)[r].id
      ensures ok ==> colsOf == old(colsOf) + [ColSet(pr, RowFor(pr, draw))]
      ensures !ok <==> exists c :: c in PeelCols(pr, RowFor(pr, draw)) && c < pr.n && |old(refs)[c]| >= CAT_REF_LIST_MAX
      ensures !ok ==> View() == old(View()).(rows := rows)
    {
      hide Inv, GensOk, Params.Valid, RowOk, PeelCols, ColSet, Referenced, Counted, Finishing, Solvable, AllMarked,
           Extends, Remembered, Recalled, Newcomer, Counts, CountsBut;
      ghost var s0 := View();
      IdleBounds(pr, s0);
      var g := RowFor(pr, draw);
      rows := rows[rowI := rows[rowI].(id := id, gen := g)];
      var count, first, second;
      ok, count, first, second := ReferenceRow(rowI);
      UnusedRow(pr, s0, rows);
      SameCounts(s0, s0.(rows := rows));
      if !ok {
        return;
      }
      rows := rows[rowI := rows[rowI].(unmarkedCount := count)];
      ghost var all := PeelCols(pr, g);
      colsOf := colsOf + [ColSet(pr, g)];
      unvisited := unvisited + [TodoAmong(cols, all)];
      ghost var s1 := View();
      NewRow(pr, s0, s1, g, count, first, second);
      NewCounts(s0, s1);
      Settle(rowI, count, first, second);
    }

    /** Acts on the unmarked count of the row just referenced. */
    method Settle(rowI: nat, count: nat, first: nat, second: nat)
      requires Sane() && Newcomer(View(), rowI, count, first, second) && CountsBut(View(), rowI)
      requires |rows| == capacity && Recalled(cols, order, solved)
      modifies this`rows, this`cols, this`headRows, this`tailRows, this`deferHeadRows
      modifies this`order, this`solved, this`deferRows, this`unvisited
      ensures Idle()
      ensures forall r :: 0 <= r < |rows| ==> rows[r].gen == old(rows)[r].gen && rows[r].id == old(rows)[r].id
    {
      hide Inv, GensOk, Params.Valid, RowOk, Finishing, Solvable, AllMarked, Extends, Remembered, Recalled, Newcomer,
           Counts, CountsBut, CountsApart;
      ghost var s0 := View();
      NewcomerCases(pr, s0, rowI, count, first, second);
      NewcomerCounts(s0, rowI, count, first, second);
      if count == 0 {
        DeferRow(rowI, {});
      } else if count == 1 {
        Peel(rowI, first, {});
      } else if count == 2 {
        rows := rows[rowI := rows[rowI].(slot := first, unmarked1 := second)];
        cols := cols[first := cols[first].(slot := cols[first].slot + 1)];
        cols := cols[second := cols[second].(slot := cols[second].slot + 1)];
      }
      Settled(pr, s0, View(), {});
    }

    /** The best column to defer; LIST_TERM when every column is marked. */
    method BestColumn() returns (best: nat)
      requires |cols| == |refs| < LIST_TERM
      ensures best == LIST_TERM <==> forall c :: 0 <= c < |cols| ==> cols[c].mark != Todo
      ensures best != LIST_TERM ==> best < |cols| && Best(View(), best)
    {
      best := LIST_TERM;
      var bestW2, bestRows := 0, 0;
      for c := 0 to |cols|
        invariant best == LIST_TERM <==> forall c' :: 0 <= c' < c ==> cols[c'].mark != Todo
        invariant best != LIST_TERM ==>
                    best < c && cols[best].mark == Todo && bestW2 == cols[best].slot && bestRows == |refs[best]|
        invariant best == LIST_TERM ==> bestW2 == 0 && bestRows == 0
        invariant best != LIST_TERM ==> forall c' :: 0 <= c' < c && cols[c'].mark == Todo && c' != best ==>
                    cols[c'].slot < bestW2 || (cols[c'].slot == bestW2 &&
                    if c' < best then |refs[c']| <= bestRows else |refs[c']| < bestRows)
      {
        if cols[c].mark == Todo {
          if cols[c].slot >= bestW2 {
            if cols[c].slot > bestW2 || |refs[c]| >= bestRows {
              best, bestW2, bestRows := c, cols[c].slot, |refs[c]|;
            }
          }
        }
      }
    }

    /** Every column is marked: greedy peeling has run before. */
    ghost predicate Exhausted()
      reads this
    {
      |cols| == |refs| == pr.n < LIST_TERM && forall c :: 0 <= c < |cols| ==> cols[c].mark != Todo
    }

    /** Defers columns, best first, until every column is marked; the list and count speak of this call's deferrals.
        Run again, it finds no column to defer, and the columns deferred before drop off the list and the count. */
    method GreedyPeeling() returns (ghost chosen: seq<nat>)
      requires Idle() || Exhausted()
      modifies this`rows, this`cols, this`headRows, this`tailRows, this`deferHeadRows, this`deferHeadColumns,
               this`deferCount
      modifies this`order, this`solved, this`deferRows, this`deferCols, this`unvisited
      ensures deferCols == chosen + old(deferCols) && ColChain(cols, deferHeadColumns, chosen) && deferCount == |chosen|
      ensures old(Exhausted()) ==>
                chosen == [] && deferHeadColumns == LIST_TERM && deferCount == 0 && View() == old(View())
      ensures old(Idle()) ==> Idle() && Exhausted() && old(order) <= order
      ensures old(Idle()) ==> BestFirst(old(View()), View(), chosen)
      ensures old(Idle()) ==> SameGens(old(rows), rows)
      ensures old(Idle()) ==> |order| + |deferRows| == |colsOf| && |order| + |deferCols| == pr.n
      ensures old(Idle()) ==> |colsOf| == pr.n ==> |deferRows| == |deferCols|
      ensures old(Idle()) ==> forall r: nat :: r < |colsOf| ==> r in order || r in deferRows
    {
      hide Inv, GensOk, Params.Valid, RowOk, Recalled, TodoSet, ColChain, Best, Deferral, BestFirst,
           SameGens, Counts, Idle;
      BestFirstNone(View());
      SameGensNone(rows);
      ghost var first := Idle();
      NoneDeferred();
      chosen := [];
      while true
        invariant deferCols == chosen + old(deferCols)
        invariant ColChain(cols, deferHeadColumns, chosen) && deferCount == |chosen|
        invariant first ==> Idle() && SameGens(old(rows), rows) && old(order) <= order
        invariant first ==> BestFirst(old(View()), View(), chosen)
        invariant old(Exhausted()) ==>
                    Exhausted() && View() == old(View()) && chosen == [] && deferHeadColumns == LIST_TERM
        decreases |TodoSet(cols)|
      {
        if first {
          IdleShape();
        }
        var best := BestColumn();
        if best == LIST_TERM {
          break;
        }
        ghost var before := View();
        DeferColumn(best, chosen);
        BestFirstNext(old(View()), before, View(), chosen, best);
        SameGensTrans(old(rows), before.rows, rows);
        chosen := [best] + chosen;
      }
      if first {
        IdleShape();
        IdleFinished();
      }
    }

    /** The list of deferred columns, empty. */
    method NoneDeferred()
      modifies this`deferHeadColumns, this`deferCount
      ensures ColChain(cols, deferHeadColumns, []) && deferHeadColumns == LIST_TERM && deferCount == 0
      ensures View() == old(View()) && Idle() == old(Idle()) && Exhausted() == old(Exhausted())
    {
      hide Inv, GensOk, Params.Valid, RowOk, Recalled, Counts;
      deferHeadColumns := LIST_TERM;
      deferCount := 0;
      ChainNone(cols);
    }

    lemma IdleShape()
      requires Idle()
      ensures |cols| == |refs| == pr.n < LIST_TERM
    {
      hide Inv, GensOk, Params.Valid, RowOk, Recalled, Counts;
      IdleBounds(pr, View());
      ShortList(pr);
    }

    lemma IdleFinished()
      requires Idle() && forall c :: 0 <= c < |cols| ==> cols[c].mark != Todo
      ensures forall r: nat :: r < |colsOf| ==> r in order || r in deferRows
      ensures |order| + |deferRows| == |colsOf| && |order| + |deferCols| == pr.n
    {
      hide Inv, GensOk, RowOk, Recalled, Counts;
      AllFinished(View());
    }

    /** Marks column c as deferred, links it, and lets its avalanche run. */
    method DeferColumn(c: nat, ghost chosen: seq<nat>)
      requires Idle() && c < |cols| && cols[c].mark == Todo && ColChain(cols, deferHeadColumns, chosen)
      modifies this`rows, this`cols, this`headRows, this`tailRows, this`deferHeadRows, this`deferHeadColumns,
               this`deferCount
      modifies this`order, this`solved, this`deferRows, this`deferCols, this`unvisited
      ensures Idle() && |TodoSet(cols)| < |old(TodoSet(cols))|
      ensures deferCols == [c] + old(deferCols) && deferHeadColumns == c && deferCount == old(deferCount) + 1
      ensures ColChain(cols, deferHeadColumns, [c] + chosen)
      ensures Best(old(View()), c) ==> Deferral(old(View()), View(), c)
      ensures SameGens(old(rows), rows) && old(order) <= order
    {
      hide Inv, GensOk, Params.Valid, RowOk, Extends, Remembered, Recalled, TodoSet, ColChain, Best, Counts;
      ghost var s0 := View();
      DeferColumnKeeps(pr, s0, c, deferHeadColumns, chosen);
      DeferCounts(s0, c, deferHeadColumns);
      cols := cols[c := cols[c].(mark := Deferred, next := deferHeadColumns)];
      deferCount := deferCount + 1;
      deferHeadColumns := c;
      deferCols := [c] + deferCols;
      ghost var s1 := View();
      ghost var none: set<nat> := {};
      assert none + {c} == {c};
      PeelAvalanche(c, none);
      ghost var s2 := View();
      Settled(pr, s1, s2, {});
      TodoShrinks(s1, s2, {});
      ColChainKept(s1, s2, deferHeadColumns, [c] + chosen);
      DeferColsKept(s1, s2);
    }

    /** Links row r at the head of the deferred list. */
    method DeferRow(r: nat, ghost busy: set<nat>)
      requires Sane() && Finishing(View(), r, busy) && AllMarked(cols, colsOf[r]) && CountsApart(View(), r)
      modifies this`rows, this`deferHeadRows, this`deferRows
      ensures Sane() && Inv(View(), busy) && Counts(View())
      ensures Extends(old(View()), View(), busy) && Remembered(old(View()), View())
      ensures View() == AfterDefer(old(View()), r)
    {
      hide RefsOk, ListsOk, MarksOk, PeeledOk, DeferredOk, CountersBut, CountOk, AllMarked, UnvisitedOk, Weighed,
           WeighedApart;
      DeferRowKeeps(View(), r, busy);
      MarkWeighs(cols, cols, unvisited, colsOf[r]);
      rows := rows[r := rows[r].(next := deferHeadRows)];
      deferHeadRows := r;
      deferRows := [r] + deferRows;
    }

    /** Stores an unmarked column of row r, and counts the row in the column. */
    method NoteColumn(r: nat, column: nat, count: nat)
      requires r < |rows| && column < |cols| && cols[column].mark == Todo && count < 2
      modifies this`rows, this`cols
      ensures |rows| == |old(rows)| && RowScanned(old(rows), rows, r) && ColsScanned(old(cols), cols)
      ensures rows[r].slot == (if count == 0 then column else old(rows)[r].slot)
      ensures rows[r].unmarked1 == (if count == 0 then old(rows)[r].unmarked1 else column)
      ensures cols == old(cols)[column := old(cols)[column].(slot := old(cols)[column].slot + 1)]
    {
      if count == 0 {
        rows := rows[r := rows[r].(slot := column)];
      } else {
        rows := rows[r := rows[r].(unmarked1 := column)];
      }
      cols := cols[column := cols[column].(slot := cols[column].slot + 1)];
    }

    /** Walks the columns of row r and stores the unmarked ones; u is a set of two that covers them. */
    method RegenerateUnmarked(r: nat, ghost u: set<nat>) returns (count: nat)
      requires r < |rows| && pr.Valid() && RowOk(pr, rows[r].gen) && |cols| == pr.n
      requires |u| == 2 && forall c :: c in PeelCols(pr, rows[r].gen) && c < |cols| && cols[c].mark == Todo ==> c in u
      modifies this`rows, this`cols
      ensures Regenerated(pr, old(rows), rows, old(cols), cols, r, u, count)
    {
      hide Params.Valid, IsPrime, Distinct, PeelCols, NextColumn, Stored, Noted, Regenerated, RowScanned, ColsScanned;
      ScannedNone(rows, cols, r);
      NotedNone(cols, rows[r].slot, rows[r].unmarked1);
      StoredNone(cols, rows[r].slot, rows[r].unmarked1);
      var g := rows[r].gen;
      ghost var all := PeelCols(pr, g);
      ColsDistinct(pr, g);
      var weight, column := g.weight, g.x0;
      ghost var i := 0;
      count := 0;
      while true
        invariant 1 <= weight <= g.weight && i == g.weight - weight && column == all[i]
        invariant RowScanned(old(rows), rows, r) && ColsScanned(old(cols), cols)
        invariant |rows| == |old(rows)| && |cols| == pr.n
        invariant forall c :: c in all && c < |cols| && cols[c].mark == Todo ==> c in u
        invariant Stored(cols, all[..i], count, rows[r].slot, rows[r].unmarked1)
        invariant Noted(old(cols), cols, count, rows[r].slot, rows[r].unmarked1)
        decreases weight
      {
        StoreColumn(cols, u, all, i, count, rows[r].slot, rows[r].unmarked1);
        if cols[column].mark == Todo {
          ghost var rows0, cols0 := rows, cols;
          NoteColumn(r, column, count);
          NotedNext(old(cols), cols0, count, rows0[r].slot, rows0[r].unmarked1, column);
          count := count + 1;
          ScannedOn(old(rows), rows0, rows, old(cols), cols0, cols, r);
          StoredSame(cols0, cols, all[..i + 1], count, rows[r].slot, rows[r].unmarked1);
        }
        weight := weight - 1;
        if weight == 0 {
          break;
        }
        PeelColsStep(pr, g, i);
        column := NextColumn(column, g.a, pr.n, pr.p);
        i := i + 1;
      }
      assert all[..i + 1] == all;
      StoredAll(cols, u, all, count, rows[r].slot, rows[r].unmarked1);
      RegeneratedIs(pr, old(rows), rows, old(cols), cols, r, u, count);
    }

    /** No avalanche is running: the state between two calls. */
    ghost predicate Idle()
      reads this
    {
      && Sane() && Inv(View(), {}) && Counts(View()) && |rows| == capacity
      && Recalled(cols, order, solved)
    }

    ghost predicate Sane()
      reads this
    {
      GensOk(pr, rows, colsOf) && |cols| == pr.n
    }

    /** One step of the avalanche of column c: row r, which refers to it, loses it from its counter. */
    method Visit(c: nat, r: nat, ghost busy: set<nat>)
      requires Sane() && Inv(View(), busy + {c}) && c !in busy && r < |colsOf| && c in unvisited[r] && Counts(View())
      modifies this`rows, this`cols, this`headRows, this`tailRows, this`deferHeadRows
      modifies this`order, this`solved, this`deferRows, this`unvisited
      ensures Sane() && Inv(View(), busy + {c}) && Counts(View())
      ensures Visited(old(View()), View(), c, r, busy)
      decreases |TodoSet(cols)|, 2
    {
      hide Inv, CountOk, UnvisitedOk, Extends, Touched, GensOk, Visited, Finishing, Solvable, AllMarked, HalfDone,
           TodoSet, Remembered, Counts, CountsBut, CountsApart;
      ghost var s0 := View();
      Bounds(pr, s0, r, busy + {c});
      rows := rows[r := rows[r].(unmarkedCount := Decrement(rows[r].unmarkedCount))];
      unvisited := unvisited[r := unvisited[r] - {c}];
      ghost var s1 := View();
      VisitCase(s0, s1, r, c, busy);
      VisitCounts(s0, s1, r, c, busy);
      VisitedGens(pr, s0, s1, c, r, busy);
      if rows[r].unmarkedCount == 1 {
        ResolveOne(r, if rows[r].slot == c then rows[r].unmarked1 else rows[r].slot, busy + {c});
        ThenExtends(s0, s1, View(), c, r, busy);
      } else if rows[r].unmarkedCount == 2 {
        ResolveTwo(r, busy + {c});
        ThenExtends(s0, s1, View(), c, r, busy);
      }
    }

    /** Counter 1: the other stored column is solved by row r, unless a pending avalanche already marked it. */
    method ResolveOne(r: nat, column: nat, ghost busy: set<nat>)
      requires Sane() && Finishing(View(), r, busy) && column < |cols| && CountsApart(View(), r)
      requires if cols[column].mark == Todo then Solvable(View(), r, column) else AllMarked(cols, colsOf[r])
      modifies this`rows, this`cols, this`headRows, this`tailRows, this`deferHeadRows
      modifies this`order, this`solved, this`deferRows, this`unvisited
      ensures Sane() && Inv(View(), busy) && Counts(View())
      ensures Extends(old(View()), View(), busy) && Remembered(old(View()), View())
      decreases |TodoSet(cols)|, 1
    {
      hide *;
      if cols[column].mark == Todo {
        Peel(r, column, busy);
      } else {
        DeferRow(r, busy);
      }
    }

    /** Counter 2: look the two columns up; with fewer than two left the row is finished here. */
    method ResolveTwo(r: nat, ghost busy: set<nat>)
      requires Sane() && HalfDone(View(), r, busy) && CountsBut(View(), r)
      modifies this`rows, this`cols, this`headRows, this`tailRows, this`deferHeadRows
      modifies this`order, this`solved, this`deferRows, this`unvisited
      ensures Sane() && Inv(View(), busy) && Counts(View())
      ensures Extends(old(View()), View(), busy) && Remembered(old(View()), View())
      decreases |TodoSet(cols)|, 1
    {
      hide Inv, GensOk, Extends, Remembered, Finishing, Solvable, HalfDone, AllMarked, TodoSet, Regenerated, PeelCols,
           Params.Valid, RowOk, Counts, CountsBut, CountsApart;
      ghost var s0 := View();
      TwoLeft(pr, s0, r, busy);
      var count := RegenerateUnmarked(r, unvisited[r]);
      ghost var s1 := View();
      Looked(pr, s0, s1, r, count, busy);
      LookedCounts(pr, s0, s1, r, count, busy);
      if count <= 1 {
        rows := rows[r := rows[r].(unmarkedCount := 0)];
        ghost var s2 := View();
        Zeroed(pr, s1, s2, r, busy);
        ZeroedCounts(s1, s2, r);
        ExtendsBoth(s0, s1, s2, busy);
        if count == 1 {
          Peel(r, rows[r].slot, busy);
        } else {
          DeferRow(r, busy);
        }
        ExtendsBoth(s0, s2, View(), busy);
      }
    }

    /** Marks column c solved by row r, and links the row behind the peeled ones. */
    method LinkPeeled(r: nat, c: nat)
      requires MarkOk(View(), r, c) && tailRows == (if order == [] then LIST_TERM else order[|order| - 1])
      requires order != [] ==> order[|order| - 1] != r && order[|order| - 1] != LIST_TERM
      modifies this`rows, this`cols, this`headRows, this`tailRows, this`order, this`solved
      ensures View() == AfterMark(old(View()), r, c)
    {
      ghost var s0, rows0 := View(), rows;
      cols := cols[c := cols[c].(mark := Solved)];
      rows := rows[r := rows[r].(slot := c)];
      if tailRows != LIST_TERM {
        rows := rows[tailRows := rows[tailRows].(next := r)];
      } else {
        headRows := r;
      }
      rows := rows[r := rows[r].(next := LIST_TERM)];
      tailRows := r;
      rows := rows[r := rows[r].(isCopied := false)];
      RowsLinked(rows0, rows, s0.order, r, c);
      order := order + [r];
      solved := solved + [c];
    }

    /** Row r solves column c: mark it, link the row, and let the avalanche of c run. */
    method Peel(r: nat, c: nat, ghost busy: set<nat>)
      requires Sane() && Finishing(View(), r, busy) && Solvable(View(), r, c) && CountsApart(View(), r)
      modifies this`rows, this`cols, this`headRows, this`tailRows, this`deferHeadRows
      modifies this`order, this`solved, this`deferRows, this`unvisited
      ensures Sane() && Inv(View(), busy) && Counts(View())
      ensures Extends(old(View()), View(), busy) && Remembered(old(View()), View())
      ensures r in order && c in solved
      decreases |TodoSet(cols)|, 0
    {
      hide Inv, GensOk, Extends, Remembered, Finishing, Solvable, AllMarked, TodoSet, Params.Valid, RowOk, Counts,
           CountsApart;
      ghost var s0 := View();
      MarkStep(pr, s0, r, c, busy);
      MarkCounts(s0, r, c);
      LinkPeeled(r, c);
      PeelAvalanche(c, busy);
      ghost var s1 := View();
      cols := cols[c := cols[c].(slot := r)];
      MarkDone(pr, s0, s1, r, c, busy);
      SolvedCounts(s1, View(), c);
    }

    /** Walks the rows that refer to the newly marked column c. */
    method PeelAvalanche(c: nat, ghost busy: set<nat>)
      requires Sane() && Inv(View(), busy + {c}) && c !in busy && c < |refs| && c < |cols| && Counts(View())
      requires forall r :: 0 <= r < |colsOf| && c in colsOf[r] ==> r < |unvisited| && c in unvisited[r]
      modifies this`rows, this`cols, this`headRows, this`tailRows, this`deferHeadRows
      modifies this`order, this`solved, this`deferRows, this`unvisited
      ensures Sane() && Inv(View(), busy) && Counts(View())
      ensures Extends(old(View()), View(), busy) && Remembered(old(View()), View())
      decreases |TodoSet(cols)|, 3
    {
      hide Inv, GensOk, Extends, Remembered, TodoSet, Params.Valid, RowOk, Visited, Counts;
      ghost var s0 := View();
      AvalancheStart(s0, c, busy);
      var refRows := refs[c];
      var k := 0;
      while k < |refRows|
        invariant k <= |refRows|
        invariant Sane() && Inv(View(), busy + {c}) && Counts(View())
        invariant Extends(s0, View(), busy) && Remembered(s0, View())
        invariant Pending(View(), refRows, c, k)
        invariant |TodoSet(cols)| <= |TodoSet(s0.cols)|
      {
        ghost var s1 := View();
        PendingNext(s1, refRows, c, k);
        Visit(c, refRows[k], busy);
        PendingStep(s0, s1, View(), refRows, c, k, busy);
        k := k + 1;
      }
      AvalancheEnd(s0, View(), refRows, c, busy);
    }
  }

  /** Of the rows only r has changed, and only in its column fields. */
  ghost predicate RowScanned(rows: seq<PeelRow>, rows': seq<PeelRow>, r: nat) {
    r < |rows| == |rows'| && rows' == rows[r := rows[r].(slot := rows'[r].slot, unmarked1 := rows'[r].unmarked1)]
  }

  /** Marks are as they were, and marked columns altogether. */
  ghost predicate ColsScanned(cols: seq<PeelColumn>, cols': seq<PeelColumn>) {
    && |cols| == |cols'| && (forall c :: 0 <= c < |cols| ==> cols'[c].mark == cols[c].mark)
    && (forall c :: 0 <= c < |cols| && cols[c].mark != Todo ==> cols'[c] == cols[c])
  }

  lemma RowsLinked(rows: seq<PeelRow>, rows': seq<PeelRow>, order: seq<nat>, r: nat, c: nat)
    requires r < |rows| && (order != [] ==> order[|order| - 1] < |rows| && order[|order| - 1] != r)
    requires |rows'| == |rows| && rows'[r] == rows[r].(slot := c, next := LIST_TERM, isCopied := false)
    requires forall i :: 0 <= i < |rows| && i != r && (order == [] || i != order[|order| - 1]) ==> rows'[i] == rows[i]
    requires order != [] ==> rows'[order[|order| - 1]] == rows[order[|order| - 1]].(next := r)
    ensures rows' == var linked := if order == [] then rows else var tail := order[|order| - 1];
              rows[tail := rows[tail].(next := r)];
                     linked[r := linked[r].(slot := c, next := LIST_TERM, isCopied := false)]
  {}

  lemma ScannedNone(rows: seq<PeelRow>, cols: seq<PeelColumn>, r: nat)
    requires r < |rows|
    ensures RowScanned(rows, rows, r) && ColsScanned(cols, cols)
  {}

  lemma ScannedOn(rows: seq<PeelRow>, rows1: seq<PeelRow>, rows2: seq<PeelRow>, cols: seq<PeelColumn>,
                  cols1: seq<PeelColumn>, cols2: seq<PeelColumn>, r: nat)
    requires RowScanned(rows, rows1, r) && RowScanned(rows1, rows2, r)
    requires ColsScanned(cols, cols1) && ColsScanned(cols1, cols2)
    ensures RowScanned(rows, rows2, r) && ColsScanned(cols, cols2)
  {}

  /** What RegenerateUnmarked leaves: the unmarked columns of row r, counted and stored. */
  ghost predicate Regenerated(pr: Params, rows: seq<PeelRow>, rows': seq<PeelRow>, cols: seq<PeelColumn>,
                              cols': seq<PeelColumn>, r: nat, u: set<nat>, count: nat)
    requires r < |rows| && RowOk(pr, rows[r].gen)
  {
    && |rows'| == |rows|
    && rows' == rows[r := rows[r].(slot := rows'[r].slot, unmarked1 := rows'[r].unmarked1)]
    && |cols'| == |cols|
    && (forall c :: 0 <= c < |cols| ==> cols'[c].mark == cols[c].mark)
    && (forall c :: 0 <= c < |cols| && cols[c].mark != Todo ==> cols'[c] == cols[c])
    && count <= 2
    && Noted(cols, cols', count, rows'[r].slot, rows'[r].unmarked1)
    && (count == 2 ==> u == {rows'[r].slot, rows'[r].unmarked1})
    && var all := PeelCols(pr, rows[r].gen);
       var x := rows'[r].slot;
    && (count == 1 ==> x in all && x < |cols| && cols[x].mark == Todo)
    && (forall c :: c in all && c < |cols| && cols[c].mark == Todo ==> count >= 1 && (count == 1 ==> c == x))
  }

  lemma RegeneratedIs(pr: Params, rows: seq<PeelRow>, rows': seq<PeelRow>, cols: seq<PeelColumn>,
                      cols': seq<PeelColumn>, r: nat, u: set<nat>, count: nat)
    requires r < |rows| == |rows'| && RowOk(pr, rows[r].gen) && RowScanned(rows, rows', r) && ColsScanned(cols, cols')
    requires Noted(cols, cols', count, rows'[r].slot, rows'[r].unmarked1) && count <= 2
    requires count == 2 ==> u == {rows'[r].slot, rows'[r].unmarked1}
    requires var all, x := PeelCols(pr, rows[r].gen), rows'[r].slot;
             && (count == 1 ==> x in all && x < |cols'| && cols'[x].mark == Todo)
             && forall c :: c in all && c < |cols'| && cols'[c].mark == Todo ==> count >= 1 && (count == 1 ==> c == x)
    ensures Regenerated(pr, rows, rows', cols, cols', r, u, count)
  {
    hide Noted, PeelCols, RowOk;
  }

  lemma Looked(pr: Params, s: State, t: State, r: nat, count: nat, busy: set<nat>)
    requires HalfDone(s, r, busy) && GensOk(pr, s.rows, s.colsOf)
    requires Regenerated(pr, s.rows, t.rows, s.cols, t.cols, r, s.unvisited[r], count)
    requires t == s.(rows := t.rows, cols := t.cols)
    ensures Extends(s, t, busy) && Remembered(s, t) && GensOk(pr, t.rows, t.colsOf)
    ensures |t.cols| == |s.cols| && r < |t.rows| && r < |t.colsOf| && count <= 2
    ensures count == 2 ==> Inv(t, busy)
    ensures count <= 1 ==> HalfDone(t, r, busy)
    ensures count == 1 ==> Solvable(t, r, t.rows[r].slot)
    ensures count == 0 ==> AllMarked(t.cols, t.colsOf[r])
  {
    hide RefsOk, ListsOk, MarksOk, PeeledOk, DeferredOk, IsPrime, PeelCols;
    assert Touched(s, t, r);
    TouchedKeeps(s, t, r, busy);
    if count == 2 {
      assert RowCounter(t, r, true, busy);
    }
  }

  lemma TwoLeft(pr: Params, s: State, r: nat, busy: set<nat>)
    requires HalfDone(s, r, busy) && GensOk(pr, s.rows, s.colsOf)
    ensures r < |s.rows| && r < |s.colsOf| && r < |s.unvisited|
    ensures RowOk(pr, s.rows[r].gen) && pr.Valid() && |s.unvisited[r]| == 2
    ensures forall c :: c in PeelCols(pr, s.rows[r].gen) && c < |s.cols| && s.cols[c].mark == Todo ==>
              c in s.unvisited[r]
  {}

  lemma ExtendsBoth(s: State, t: State, u: State, busy: set<nat>)
    requires Extends(s, t, busy) && Remembered(s, t) && Extends(t, u, busy) && Remembered(t, u)
    ensures Extends(s, u, busy) && Remembered(s, u)
    ensures |TodoSet(u.cols)| <= |TodoSet(s.cols)| && |TodoSet(t.cols)| <= |TodoSet(s.cols)|
  {
    RememberedTrans(s, t, u, busy);
    TodoShrinks(s, t, busy);
    TodoShrinks(t, u, busy);
  }

  lemma Zeroed(pr: Params, s: State, t: State, r: nat, busy: set<nat>)
    requires HalfDone(s, r, busy) && GensOk(pr, s.rows, s.colsOf)
    requires t == s.(rows := s.rows[r := s.rows[r].(unmarkedCount := 0)])
    ensures Extends(s, t, busy) && Remembered(s, t) && GensOk(pr, t.rows, t.colsOf)
    ensures Finishing(t, r, busy)
    ensures forall x :: Solvable(s, r, x) ==> Solvable(t, r, x)
  {
    hide RefsOk, ListsOk, MarksOk, PeeledOk, DeferredOk, IsPrime, PeelCols;
    assert Touched(s, t, r);
    TouchedKeeps(s, t, r, busy);
  }

  lemma MarkStep(pr: Params, s: State, r: nat, c: nat, busy: set<nat>)
    requires GensOk(pr, s.rows, s.colsOf) && Finishing(s, r, busy) && Solvable(s, r, c)
    ensures MarkOk(s, r, c) && s.tailRows == (if s.order == [] then LIST_TERM else s.order[|s.order| - 1])
    ensures s.order != [] ==> s.order[|s.order| - 1] != r && s.order[|s.order| - 1] != LIST_TERM
    ensures |s.refs| == |s.cols| && |s.order| == |s.solved| && c !in busy && r < |s.colsOf| && s.cols[c].mark == Todo
    ensures var t := AfterMark(s, r, c);
            && Inv(t, busy + {c}) && GensOk(pr, t.rows, t.colsOf) && |TodoSet(t.cols)| < |TodoSet(s.cols)|
            && forall r' :: 0 <= r' < |t.colsOf| && c in t.colsOf[r'] ==> r' < |t.unvisited| && c in t.unvisited[r']
  {
    hide RefsOk, Chain, MarksOk, PeeledOk, DeferredOk, RowCounter, TodoSet, Distinct, RowOk, Params.Valid;
    PeelKeeps(s, r, c, busy);
    TodoMark(s.cols, c);
  }

  lemma TodoMark(cols: seq<PeelColumn>, c: nat)
    requires c < |cols| && cols[c].mark == Todo
    ensures |TodoSet(cols[c := cols[c].(mark := Solved)])| < |TodoSet(cols)|
  {
    assert c in TodoSet(cols);
    SubsetSize(TodoSet(cols[c := cols[c].(mark := Solved)]), TodoSet(cols) - {c});
  }

  lemma MarkDone(pr: Params, s0: State, s: State, r: nat, c: nat, busy: set<nat>)
    requires MarkOk(s0, r, c) && s0.cols[c].mark == Todo && |s0.order| == |s0.solved|
    requires Extends(AfterMark(s0, r, c), s, busy) && Remembered(AfterMark(s0, r, c), s)
    requires Inv(s, busy) && r < |s.colsOf| && GensOk(pr, s.rows, s.colsOf)
    ensures c < |s.cols| && r in s.order && c in s.solved && s.cols[c].mark != Todo
    ensures var t := s.(cols := s.cols[c := s.cols[c].(slot := r)]);
            Inv(t, busy) && Extends(s0, t, busy) && Remembered(s0, t)
  {
    var m := AfterMark(s0, r, c);
    assert m.order[|s0.order|] == r && m.solved[|s0.order|] == c;
    assert s.order[|s0.order|] == r && s.solved[|s0.order|] == c;
    SlotKeeps(s, s.(cols := s.cols[c := s.cols[c].(slot := r)]), r, c, r, busy);
    SlotExtends(s0, s, r, c, busy);
  }

  /** Of the rows that refer to c, those from k on still count it and those before k do not. */
  ghost predicate Pending(s: State, refRows: seq<nat>, c: nat, k: nat) {
    && c < |s.refs| && s.refs[c] == refRows && k <= |refRows|
    && (forall i :: 0 <= i < |refRows| ==> refRows[i] < |s.colsOf| && refRows[i] < |s.unvisited|)
    && (forall i :: k <= i < |refRows| ==> c in s.unvisited[refRows[i]])
    && (forall i :: 0 <= i < k ==> c !in s.unvisited[refRows[i]])
    && Distinct(refRows)
  }

  lemma AvalancheStart(s: State, c: nat, busy: set<nat>)
    requires Inv(s, busy + {c}) && c < |s.cols|
    requires forall r :: 0 <= r < |s.colsOf| && c in s.colsOf[r] ==> r < |s.unvisited| && c in s.unvisited[r]
    ensures c < |s.refs| && Pending(s, s.refs[c], c, 0)
    ensures Extends(s, s, busy) && Remembered(s, s)
  {
    hide ListsOk, MarksOk, PeeledOk, DeferredOk, CountersBut;
    assert Lists(s.refs[c], c, s.colsOf);
  }

  lemma PendingNext(s: State, refRows: seq<nat>, c: nat, k: nat)
    requires Pending(s, refRows, c, k) && k < |refRows|
    ensures refRows[k] < |s.colsOf| && refRows[k] < |s.unvisited| && c in s.unvisited[refRows[k]]
  {}

  lemma PendingStep(s0: State, s: State, t: State, refRows: seq<nat>, c: nat, k: nat, busy: set<nat>)
    requires Extends(s0, s, busy) && Remembered(s0, s)
    requires Pending(s, refRows, c, k) && k < |refRows| && Visited(s, t, c, refRows[k], busy)
    ensures Extends(s0, t, busy) && Remembered(s0, t)
    ensures Pending(t, refRows, c, k + 1)
    ensures |TodoSet(t.cols)| <= |TodoSet(s.cols)|
  {
    ExtendsBoth(s0, s, t, busy);
    TodoShrinks(s, t, busy);
    forall i | 0 <= i < |refRows| && i != k ensures c in t.unvisited[refRows[i]] <==> c in s.unvisited[refRows[i]] {
      assert refRows[i] != refRows[k];
    }
  }

  lemma AvalancheEnd(s0: State, s: State, refRows: seq<nat>, c: nat, busy: set<nat>)
    requires Inv(s, busy + {c}) && Pending(s, refRows, c, |refRows|) && c < |s.cols|
    ensures Inv(s, busy)
  {
    hide ListsOk, MarksOk, PeeledOk, DeferredOk, CountOk;
    forall r: nat | r < |s.colsOf| ensures RowCounter(s, r, Live(s, r), busy) {
      InvRow(s, r, busy + {c});
      assert Lists(refRows, c, s.colsOf);
      if r in refRows {
        var i :| 0 <= i < |refRows| && refRows[i] == r;
        assert c !in s.unvisited[refRows[i]];
      } else {
        assert c !in s.colsOf[r];
      }
    }
  }

  lemma Bounds(pr: Params, s: State, r: nat, busy: set<nat>)
    requires GensOk(pr, s.rows, s.colsOf) && Inv(s, busy) && r < |s.colsOf|
    ensures r < |s.rows| && r < |s.unvisited|
  {}

  lemma VisitedGens(pr: Params, s: State, t: State, c: nat, r: nat, busy: set<nat>)
    requires GensOk(pr, s.rows, s.colsOf) && Visited(s, t, c, r, busy)
    ensures GensOk(pr, t.rows, t.colsOf) && |t.cols| == |s.cols|
    ensures |TodoSet(t.cols)| <= |TodoSet(s.cols)|
  {
    TodoShrinks(s, t, busy);
  }

  lemma ThenExtends(s: State, t: State, u: State, c: nat, r: nat, busy: set<nat>)
    requires Visited(s, t, c, r, busy) && Extends(t, u, busy + {c}) && Remembered(t, u)
    ensures Visited(s, u, c, r, busy)
  {
    RememberedTrans(s, t, u, busy + {c});
  }

  /** unmarked[0..count] holds the unmarked columns among those seen. */
  ghost predicate Stored(cols: seq<PeelColumn>, seen: seq<nat>, count: nat, x: nat, y: nat) {
    && count <= 2
    && (count >= 1 ==> x in seen && x < |cols| && cols[x].mark == Todo)
    && (count == 2 ==> y in seen && y < |cols| && cols[y].mark == Todo && x != y)
    && (forall c :: c in seen && c < |cols| && cols[c].mark == Todo ==>
          (count >= 1 && c == x) || (count == 2 && c == y))
  }

  lemma StoredNone(cols: seq<PeelColumn>, x: nat, y: nat)
    ensures Stored(cols, [], 0, x, y)
  {}

  lemma StoredSame(cols: seq<PeelColumn>, cols': seq<PeelColumn>, seen: seq<nat>, count: nat, x: nat, y: nat)
    requires Stored(cols, seen, count, x, y)
    requires |cols'| == |cols| && forall c :: 0 <= c < |cols| ==> cols'[c].mark == cols[c].mark
    ensures Stored(cols', seen, count, x, y)
  {}

  // A third unmarked column would not fit the two the counter speaks of, so unmarked[] cannot overflow.
  lemma StoreColumn(cols: seq<PeelColumn>, u: set<nat>, all: seq<nat>, i: nat, count: nat, x: nat, y: nat)
    requires |u| == 2 && Distinct(all) && i < |all| && Stored(cols, all[..i], count, x, y) && all[i] < |cols|
    requires forall c :: c in all && c < |cols| && cols[c].mark == Todo ==> c in u
    ensures if cols[all[i]].mark == Todo then
              count < 2 && Stored(cols, all[..i + 1], count + 1,
                                  if count == 0 then all[i] else x, if count == 0 then y else all[i])
            else Stored(cols, all[..i + 1], count, x, y)
    ensures count == 1 && cols[all[i]].mark == Todo ==> all[i] != x
  {
    assert all[..i + 1] == all[..i] + [all[i]];
    if count == 2 && cols[all[i]].mark == Todo {
      SmallSet(u, x, y);
    }
  }

  lemma StoredAll(cols: seq<PeelColumn>, u: set<nat>, all: seq<nat>, count: nat, x: nat, y: nat)
    requires |u| == 2 && Stored(cols, all, count, x, y)
    requires forall c :: c in all && c < |cols| && cols[c].mark == Todo ==> c in u
    ensures count <= 2
    ensures count == 2 ==> u == {x, y}
    ensures count == 1 ==> x in all && x < |cols| && cols[x].mark == Todo
    ensures forall c :: c in all && c < |cols| && cols[c].mark == Todo ==> count >= 1 && (count == 1 ==> c == x)
  {
    if count == 2 {
      SmallSet(u, x, y);
    }
  }
}
