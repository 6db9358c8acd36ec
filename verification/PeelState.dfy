/** The peeling graph as a value, and the invariant every peeling step keeps (src/fec/Wirehair.cpp, part 1). */
module PeelState {
  import opened ColumnIterator
  import opened CheckMatrix

  datatype Mark = Todo | Solved | Deferred

  /** slot is the source's union: unmarked[0] while peeling, peel_column once the row is solved. */
  datatype PeelRow = PeelRow(gen: RowGen, id: nat, next: nat, unmarkedCount: nat, slot: nat, unmarked1: nat,
                             isCopied: bool)

  /** slot is the source's union: w2_refs while unmarked, then peel_row, or ge_column for a deferred column. */
  datatype PeelColumn = PeelColumn(next: nat, slot: nat, mark: Mark)

  /** The fields of the peeling state, and the history they stand for: order lists the peeled rows and
      solved their columns; colsOf[r] is the column set of row r; unvisited[r] holds those of its columns
      whose avalanche has not reached the row yet, which is what unmarked_count counts. */
  datatype State = State(
    rows: seq<PeelRow>, cols: seq<PeelColumn>, refs: seq<seq<nat>>,
    headRows: nat, tailRows: nat, deferHeadRows: nat,
    colsOf: seq<set<nat>>, order: seq<nat>, solved: seq<nat>, deferRows: seq<nat>, deferCols: seq<nat>,
    unvisited: seq<set<nat>>)

  ghost function ColSet(pr: Params, g: RowGen): set<nat>
    requires RowOk(pr, g)
  {
    set c | c in PeelCols(pr, g)
  }

  /** The rows fed so far carry valid generators, and colsOf is what they generate. */
  ghost predicate GensOk(pr: Params, rows: seq<PeelRow>, colsOf: seq<set<nat>>) {
    && pr.Valid()
    && |colsOf| <= |rows| < LIST_TERM
    && forall r :: 0 <= r < |colsOf| ==> RowOk(pr, rows[r].gen) && colsOf[r] == ColSet(pr, rows[r].gen)
  }

  ghost predicate Shape(s: State) {
    && |s.colsOf| == |s.unvisited| <= |s.rows| < LIST_TERM
    && |s.cols| == |s.refs| && |s.order| == |s.solved|
    && forall r, c :: 0 <= r < |s.colsOf| && c in s.colsOf[r] ==> c < |s.cols|
  }

  /** list holds, once each, the rows whose column set has c. */
  ghost predicate Lists(list: seq<nat>, c: nat, colsOf: seq<set<nat>>) {
    && Distinct(list)
    && (forall i :: 0 <= i < |list| ==> list[i] < |colsOf| && c in colsOf[list[i]])
    && (forall r :: 0 <= r < |colsOf| && c in colsOf[r] ==> r in list)
  }

  ghost predicate RefsOk(s: State) {
    && |s.refs| == |s.cols|
    && forall c :: 0 <= c < |s.cols| ==> Lists(s.refs[c], c, s.colsOf)
  }

  function NextOf(list: seq<nat>, i: nat): nat
    requires i < |list|
  {
    if i + 1 < |list| then list[i + 1] else LIST_TERM
  }

  /** head and the next fields spell out list, ended by LIST_TERM. */
  ghost predicate Chain(rows: seq<PeelRow>, head: nat, list: seq<nat>) {
    && (forall i :: 0 <= i < |list| ==> list[i] < |rows|)
    && head == (if list == [] then LIST_TERM else list[0])
    && forall i :: 0 <= i < |list| ==> rows[list[i]].next == NextOf(list, i)
  }

  ghost predicate Live(s: State, r: nat) {
    r !in s.order && r !in s.deferRows
  }

  ghost predicate ListsOk(s: State) {
    && Chain(s.rows, s.headRows, s.order)
    && Chain(s.rows, s.deferHeadRows, s.deferRows)
    && s.tailRows == (if s.order == [] then LIST_TERM else s.order[|s.order| - 1])
    && Distinct(s.order) && Distinct(s.deferRows)
    && (forall i :: 0 <= i < |s.order| ==> s.order[i] < |s.colsOf| && s.order[i] !in s.deferRows)
    && (forall i :: 0 <= i < |s.deferRows| ==> s.deferRows[i] < |s.colsOf|)
  }

  ghost predicate MarksOk(s: State) {
    && Distinct(s.solved) && Distinct(s.deferCols)
    && (forall i :: 0 <= i < |s.solved| ==> s.solved[i] < |s.cols|)
    && (forall i :: 0 <= i < |s.deferCols| ==> s.deferCols[i] < |s.cols|)
    && (forall c: nat :: c < |s.cols| ==> (s.cols[c].mark == Solved <==> c in s.solved))
    && (forall c: nat :: c < |s.cols| ==> (s.cols[c].mark == Deferred <==> c in s.deferCols))
  }

  /** Apart from the column it solves, the i-th peeled row has only deferred and earlier solved columns. */
  ghost predicate SolvesLast(cols: seq<PeelColumn>, colSet: set<nat>, solved: seq<nat>, i: nat)
    requires i < |solved|
  {
    && solved[i] in colSet
    && forall c :: c in colSet && c != solved[i] ==> (c < |cols| && cols[c].mark == Deferred) || c in solved[..i]
  }

  ghost predicate PeeledOk(rows: seq<PeelRow>, cols: seq<PeelColumn>, colsOf: seq<set<nat>>, order: seq<nat>,
                           solved: seq<nat>) {
    && |solved| == |order|
    && forall i :: 0 <= i < |order| ==>
         && order[i] < |colsOf| && order[i] < |rows|
         && rows[order[i]].slot == solved[i] && !rows[order[i]].isCopied
         && SolvesLast(cols, colsOf[order[i]], solved, i)
  }

  /** Deferred rows have no unmarked column. */
  ghost predicate DeferredOk(cols: seq<PeelColumn>, colsOf: seq<set<nat>>, deferRows: seq<nat>) {
    forall i :: 0 <= i < |deferRows| ==> deferRows[i] < |colsOf| && AllMarked(cols, colsOf[deferRows[i]])
  }

  ghost predicate AllMarked(cols: seq<PeelColumn>, colSet: set<nat>) {
    forall c :: c in colSet ==> c < |cols| && cols[c].mark != Todo
  }

  ghost predicate UnvisitedOk(cols: seq<PeelColumn>, colSet: set<nat>, u: set<nat>, busy: set<nat>)
    requires forall c :: c in colSet ==> c < |cols|
  {
    && u <= colSet
    && (forall c :: c in u ==> cols[c].mark == Todo || c in busy)
    && (forall c :: c in colSet && cols[c].mark == Todo ==> c in u)
  }

  /** The 16-bit counter: exact while the row is live; a finished row's counter never shows 1 or 2 again. */
  ghost predicate CountOk(row: PeelRow, u: set<nat>, live: bool) {
    && row.unmarkedCount < 0x1_0000
    && if live then
      && row.unmarkedCount == |u| >= 2
      && (|u| == 2 ==> u == {row.slot, row.unmarked1})
    else
      || row.unmarkedCount == |u| <= 1
      || (|u| <= 2 && row.unmarkedCount == if |u| == 2 then 0 else 0xFFFE + |u|)
  }

  ghost predicate RowCounter(s: State, r: nat, live: bool, busy: set<nat>)
    requires Shape(s) && r < |s.colsOf|
  {
    UnvisitedOk(s.cols, s.colsOf[r], s.unvisited[r], busy) && CountOk(s.rows[r], s.unvisited[r], live)
  }

  ghost predicate Structure(s: State, busy: set<nat>) {
    && Shape(s) && RefsOk(s) && ListsOk(s) && MarksOk(s)
    && PeeledOk(s.rows, s.cols, s.colsOf, s.order, s.solved) && DeferredOk(s.cols, s.colsOf, s.deferRows)
    && forall b :: b in busy ==> b < |s.cols| && s.cols[b].mark != Todo
  }

  ghost predicate CountersBut(s: State, busy: set<nat>, r: int)
    requires Shape(s)
  {
    forall r': nat :: r' < |s.colsOf| && r' != r ==> RowCounter(s, r', Live(s, r'), busy)
  }

  /** busy holds the columns whose avalanche is still running, one per active call. */
  ghost predicate Inv(s: State, busy: set<nat>) {
    Structure(s, busy) && CountersBut(s, busy, -1)
  }

  /** Inv, except that row r is being worked on. */
  ghost predicate InvBut(s: State, busy: set<nat>, r: nat) {
    Structure(s, busy) && r < |s.colsOf| && CountersBut(s, busy, r)
  }

  /** What an avalanche may do: solve more columns and finish more rows, never undo anything. */
  ghost predicate Extends(s: State, t: State, busy: set<nat>) {
    && t.colsOf == s.colsOf && t.refs == s.refs && |t.rows| == |s.rows| && |t.cols| == |s.cols|
    && |t.unvisited| == |s.unvisited| == |s.colsOf|
    && (forall r :: 0 <= r < |s.rows| ==> t.rows[r].gen == s.rows[r].gen && t.rows[r].id == s.rows[r].id)
    && s.order <= t.order && s.solved <= t.solved
    && t.deferCols == s.deferCols
    && (forall r :: r in s.deferRows ==> r in t.deferRows)
    && (forall c :: 0 <= c < |s.cols| && s.cols[c].mark != Todo ==> t.cols[c] == s.cols[c])
    && (forall r, b :: 0 <= r < |s.colsOf| && b in busy ==> (b in t.unvisited[r] <==> b in s.unvisited[r]))
  }

  /** Every column solved since s remembers its row. */
  ghost predicate Remembered(s: State, t: State) {
    && |s.order| <= |t.order| == |t.solved|
    && forall i :: |s.order| <= i < |t.order| ==>
         t.solved[i] < |t.cols| && t.cols[t.solved[i]].mark != Todo && t.cols[t.solved[i]].slot == t.order[i]
  }

  lemma RememberedTrans(s: State, t: State, u: State, busy: set<nat>)
    requires Remembered(s, t) && Remembered(t, u) && Extends(t, u, busy)
    ensures Remembered(s, u)
  {
    forall i | |s.order| <= i < |u.order|
      ensures u.solved[i] < |u.cols| && u.cols[u.solved[i]].mark != Todo && u.cols[u.solved[i]].slot == u.order[i]
    {
      if i < |t.order| {
        assert t.solved[i] == u.solved[i] && t.order[i] == u.order[i];
      }
    }
  }

  ghost function TodoSet(cols: seq<PeelColumn>): set<nat> {
    set c: nat | c < |cols| && cols[c].mark == Todo
  }

  lemma TodoShrinks(s: State, t: State, busy: set<nat>)
    requires Extends(s, t, busy)
    ensures |TodoSet(t.cols)| <= |TodoSet(s.cols)|
  {
    SubsetSize(TodoSet(t.cols), TodoSet(s.cols));
  }

  /** t is s with row r's counter words and the reference counts of unmarked columns changed. */
  ghost predicate Touched(s: State, t: State, r: nat) {
    && t == s.(rows := t.rows, cols := t.cols, unvisited := t.unvisited)
    && |t.rows| == |s.rows| && |t.cols| == |s.cols| && |t.unvisited| == |s.unvisited|
    && (forall i :: 0 <= i < |s.rows| && i != r ==> t.rows[i] == s.rows[i])
    && (forall i :: 0 <= i < |s.unvisited| && i != r ==> t.unvisited[i] == s.unvisited[i])
    && (forall c :: 0 <= c < |s.cols| ==> t.cols[c].mark == s.cols[c].mark)
    && r < |s.rows|
    && t.rows[r].gen == s.rows[r].gen && t.rows[r].id == s.rows[r].id && t.rows[r].next == s.rows[r].next
    && t.rows[r].isCopied == s.rows[r].isCopied
    && (r in s.order ==> t.rows[r].slot == s.rows[r].slot)
  }

  lemma ChainSame(rows: seq<PeelRow>, rows': seq<PeelRow>, head: nat, list: seq<nat>)
    requires Chain(rows, head, list) && |rows'| == |rows|
    requires forall i :: 0 <= i < |list| ==> rows'[list[i]].next == rows[list[i]].next
    ensures Chain(rows', head, list)
  {}

  lemma RefsSame(s: State, t: State)
    requires Shape(s) && RefsOk(s) && Shape(t) && t.refs == s.refs && t.colsOf == s.colsOf && |t.cols| == |s.cols|
    ensures RefsOk(t)
  {}

  lemma TouchedStructure(s: State, t: State, r: nat, busy: set<nat>)
    requires Touched(s, t, r) && Structure(s, busy)
    ensures Structure(t, busy)
  {
    hide Distinct, SolvesLast, AllMarked;
    ChainSame(s.rows, t.rows, s.headRows, s.order);
    ChainSame(s.rows, t.rows, s.deferHeadRows, s.deferRows);
    RefsSame(s, t);
    hide RefsOk, Chain;
    assert ListsOk(t) && MarksOk(t);
    MarksSame(s.cols, t.cols);
  }

  // SolvesLast and AllMarked look at nothing but the marks.
  lemma MarksSame(cols: seq<PeelColumn>, cols': seq<PeelColumn>)
    requires |cols'| == |cols| && forall c :: 0 <= c < |cols| ==> cols'[c].mark == cols[c].mark
    ensures forall colSet, solved, i: nat :: i < |solved| ==>
              (SolvesLast(cols', colSet, solved, i) <==> SolvesLast(cols, colSet, solved, i))
    ensures forall colSet :: AllMarked(cols', colSet) <==> AllMarked(cols, colSet)
  {}

  lemma TouchedKeeps(s: State, t: State, r: nat, busy: set<nat>)
    requires Touched(s, t, r) && InvBut(s, busy, r)
    ensures InvBut(t, busy, r)
  {
    TouchedStructure(s, t, r, busy);
    hide Structure, RefsOk, ListsOk, MarksOk;
    forall r': nat | r' < |t.colsOf| && r' != r ensures RowCounter(t, r', Live(t, r'), busy) {
      assert RowCounter(s, r', Live(s, r'), busy);
    }
  }

  // ---- One visit: the avalanche of column c reaches row r ----

  function Decrement(count: nat): nat {
    (count + 0xFFFF) % 0x1_0000
  }

  lemma InvRow(s: State, r: nat, busy: set<nat>)
    requires Inv(s, busy) && r < |s.colsOf|
    ensures InvBut(s, busy, r) && RowCounter(s, r, Live(s, r), busy)
  {}

  lemma {:induction false} VisitRow(s: State, t: State, r: nat, c: nat, busy: set<nat>)
    requires Inv(s, busy) && c in busy && r < |s.colsOf| && c in s.unvisited[r]
    requires t == s.(rows := s.rows[r := s.rows[r].(unmarkedCount := Decrement(s.rows[r].unmarkedCount))],
                     unvisited := s.unvisited[r := s.unvisited[r] - {c}])
    ensures InvBut(t, busy, r) && Touched(s, t, r)
    ensures UnvisitedOk(t.cols, t.colsOf[r], t.unvisited[r], busy)
    ensures var k := t.rows[r].unmarkedCount;
            if Live(s, r) && k == 1 then
              RowCounter(t, r, false, busy)
              && t.unvisited[r] == {if s.rows[r].slot == c then s.rows[r].unmarked1 else s.rows[r].slot}
            else if Live(s, r) && k == 2 then |t.unvisited[r]| == 2
            else k != 1 && k != 2 && RowCounter(t, r, Live(t, r), busy)
  {
    hide RefsOk, ListsOk, MarksOk, PeeledOk, DeferredOk, CountersBut, CountOk;
    InvRow(s, r, busy);
    TouchedKeeps(s, t, r, busy);
    CountAfterVisit(s.rows[r], t.rows[r], s.unvisited[r], t.unvisited[r], c, Live(s, r));
  }

  lemma CountAfterVisit(row: PeelRow, row': PeelRow, u: set<nat>, u': set<nat>, c: nat, live: bool)
    requires CountOk(row, u, live) && c in u && u' == u - {c}
    requires row' == row.(unmarkedCount := Decrement(row.unmarkedCount))
    ensures var k := row'.unmarkedCount;
            if live && k == 1 then
              CountOk(row', u', false) && u' == {if row.slot == c then row.unmarked1 else row.slot}
            else if live && k == 2 then |u'| == 2
            else k != 1 && k != 2 && CountOk(row', u', live)
  {
    assert |u'| == |u| - 1;
    if |u| == 2 && live {
      var x := if row.slot == c then row.unmarked1 else row.slot;
      SubsetFull(u', {x});
    }
  }

  lemma SmallSet(u: set<nat>, x: nat, y: nat)
    requires |u| == 2 && x in u && y in u && x != y
    ensures u == {x, y}
  {
    SubsetFull({x, y}, u);
  }

  // ---- A row with no unmarked column left joins the deferred list ----

  ghost function AfterDefer(s: State, r: nat): State
    requires r < |s.rows|
  {
    s.(rows := s.rows[r := s.rows[r].(next := s.deferHeadRows)], deferHeadRows := r, deferRows := [r] + s.deferRows)
  }

  lemma ChainPush(rows: seq<PeelRow>, rows': seq<PeelRow>, head: nat, list: seq<nat>, r: nat)
    requires Chain(rows, head, list) && r < |rows| == |rows'| && r !in list
    requires forall i :: 0 <= i < |rows| && i != r ==> rows'[i].next == rows[i].next
    requires rows'[r].next == head
    ensures Chain(rows', r, [r] + list)
  {
    var list' := [r] + list;
    forall i | 0 <= i < |list'| ensures list'[i] < |rows'| && rows'[list'[i]].next == NextOf(list', i) {
      if i > 0 {
        assert list'[i] == list[i - 1];
        assert rows[list[i - 1]].next == NextOf(list, i - 1);
        assert list[i - 1] != r;
      }
    }
  }

  lemma {:induction false} DeferLists(s: State, r: nat)
    requires ListsOk(s) && Live(s, r) && r < |s.colsOf| <= |s.rows|
    ensures ListsOk(AfterDefer(s, r))
  {
    var t := AfterDefer(s, r);
    ChainPush(s.rows, t.rows, s.deferHeadRows, s.deferRows, r);
    assert forall i :: 0 <= i < |s.order| ==> s.order[i] != r;
    ChainSame(s.rows, t.rows, s.headRows, s.order);
    hide Chain;
    assert Distinct(t.deferRows);
  }

  lemma {:induction false} DeferRowKeeps(s: State, r: nat, busy: set<nat>)
    requires InvBut(s, busy, r) && Live(s, r) && RowCounter(s, r, false, busy)
    requires AllMarked(s.cols, s.colsOf[r])
    ensures Inv(AfterDefer(s, r), busy)
  {
    var t := AfterDefer(s, r);
    DeferLists(s, r);
    assert Structure(t, busy) by {
      assert forall i :: 0 <= i < |s.order| ==> s.order[i] != r;
      hide CountersBut, RowCounter, ListsOk, Chain, SolvesLast, AllMarked;
      RefsSame(s, t);
      assert MarksOk(t);
      assert PeeledOk(t.rows, t.cols, t.colsOf, t.order, t.solved);
      assert DeferredOk(t.cols, t.colsOf, [r] + s.deferRows);
    }
    DeferCounters(s, r, busy);
  }

  lemma DeferCounters(s: State, r: nat, busy: set<nat>)
    requires Shape(s) && r < |s.colsOf| && CountersBut(s, busy, r) && RowCounter(s, r, false, busy)
    ensures Shape(AfterDefer(s, r)) && CountersBut(AfterDefer(s, r), busy, -1)
  {
    var t := AfterDefer(s, r);
    forall r': nat | r' < |t.colsOf| ensures RowCounter(t, r', Live(t, r'), busy) {
      assert r' in t.deferRows <==> r' == r || r' in s.deferRows;
      if r' != r {
        assert RowCounter(s, r', Live(s, r'), busy);
      }
    }
  }

  // ---- A row with one unmarked column left solves it ----

  ghost predicate MarkOk(s: State, r: nat, c: nat) {
    r < |s.rows| && c < |s.cols| && (s.order != [] ==> s.order[|s.order| - 1] < |s.rows|)
  }

  /** The state after Peel has marked column c and linked row r, before the avalanche of c starts. */
  ghost function AfterMark(s: State, r: nat, c: nat): State
    requires MarkOk(s, r, c)
  {
    var rows := if s.order == [] then s.rows
                else var tail := s.order[|s.order| - 1]; s.rows[tail := s.rows[tail].(next := r)];
    s.(rows := rows[r := rows[r].(slot := c, next := LIST_TERM, isCopied := false)],
       cols := s.cols[c := s.cols[c].(mark := Solved)],
       headRows := if s.order == [] then r else s.headRows,
       tailRows := r,
       order := s.order + [r], solved := s.solved + [c])
  }

  lemma {:induction false} MarkLists(s: State, r: nat, c: nat)
    requires ListsOk(s) && Live(s, r) && r < |s.colsOf| <= |s.rows| && c < |s.cols|
    ensures ListsOk(AfterMark(s, r, c))
  {
    var t := AfterMark(s, r, c);
    assert forall i :: 0 <= i < |s.order| ==> s.order[i] != r;
    assert forall i :: 0 <= i < |s.deferRows| ==> s.deferRows[i] != r;
    var n := |s.order|;
    forall i | 0 <= i < |t.order|
      ensures t.order[i] < |t.rows| && t.rows[t.order[i]].next == NextOf(t.order, i)
    {
      if i < n {
        assert t.order[i] == s.order[i];
        if i < n - 1 {
          assert s.order[i] != s.order[n - 1];
        }
      }
    }
    if n > 0 {
      assert s.order[n - 1] !in s.deferRows;
    }
  }

  lemma MarkMarks(s: State, r: nat, c: nat)
    requires MarksOk(s) && c < |s.cols| && s.cols[c].mark == Todo
    requires r < |s.rows| && (s.order != [] ==> s.order[|s.order| - 1] < |s.rows|)
    ensures MarksOk(AfterMark(s, r, c))
  {
    var t := AfterMark(s, r, c);
    assert c !in s.solved;
    forall c' ensures c' in t.solved <==> c' == c || c' in s.solved {}
  }

  lemma SolvesLastMark(cols: seq<PeelColumn>, colSet: set<nat>, solved: seq<nat>, i: nat, c: nat)
    requires i < |solved| && SolvesLast(cols, colSet, solved, i)
    requires c < |cols| && cols[c].mark == Todo
    ensures SolvesLast(cols[c := cols[c].(mark := Solved)], colSet, solved + [c], i)
  {
    assert (solved + [c])[..i] == solved[..i];
  }

  lemma {:induction false} MarkPeeled(
      rows: seq<PeelRow>, rows': seq<PeelRow>, cols: seq<PeelColumn>, colsOf: seq<set<nat>>,
      order: seq<nat>, solved: seq<nat>, r: nat, c: nat)
    requires PeeledOk(rows, cols, colsOf, order, solved) && r !in order
    requires r < |colsOf| && r < |rows'| == |rows| && c in colsOf[r] && c < |cols| && cols[c].mark == Todo
    requires forall c' :: c' in colsOf[r] && c' != c ==> (c' < |cols| && cols[c'].mark == Deferred) || c' in solved
    requires rows'[r].slot == c && !rows'[r].isCopied
    requires forall i :: 0 <= i < |rows| && i != r ==>
               rows'[i].slot == rows[i].slot && rows'[i].isCopied == rows[i].isCopied
    ensures PeeledOk(rows', cols[c := cols[c].(mark := Solved)], colsOf, order + [r], solved + [c])
  {
    var n := |order|;
    var cols' := cols[c := cols[c].(mark := Solved)];
    var order', solved' := order + [r], solved + [c];
    forall i | 0 <= i <= n
      ensures order'[i] < |colsOf| && order'[i] < |rows'|
      ensures rows'[order'[i]].slot == solved'[i] && !rows'[order'[i]].isCopied
      ensures SolvesLast(cols', colsOf[order'[i]], solved', i)
    {
      if i < n {
        assert order'[i] == order[i] && order[i] != r;
        SolvesLastMark(cols, colsOf[order[i]], solved, i, c);
      } else {
        assert solved'[..n] == solved;
      }
    }
  }

  lemma MarkDeferred(cols: seq<PeelColumn>, colsOf: seq<set<nat>>, deferRows: seq<nat>, c: nat)
    requires DeferredOk(cols, colsOf, deferRows) && c < |cols|
    ensures DeferredOk(cols[c := cols[c].(mark := Solved)], colsOf, deferRows)
  {}

  lemma {:induction false} MarkCounters(s: State, r: nat, c: nat, busy: set<nat>)
    requires Shape(s) && r < |s.colsOf| && CountersBut(s, busy, r) && RowCounter(s, r, false, busy)
    requires c < |s.cols| && s.cols[c].mark == Todo && (s.order != [] ==> s.order[|s.order| - 1] < |s.rows|)
    requires forall i :: 0 <= i < |s.order| ==> s.order[i] != r
    ensures Shape(AfterMark(s, r, c)) && CountersBut(AfterMark(s, r, c), busy + {c}, -1)
    ensures forall r' :: 0 <= r' < |s.colsOf| && c in s.colsOf[r'] ==> c in s.unvisited[r']
  {
    var t := AfterMark(s, r, c);
    forall r': nat | r' < |t.colsOf|
      ensures RowCounter(t, r', Live(t, r'), busy + {c}) && (c in s.colsOf[r'] ==> c in s.unvisited[r'])
    {
      assert r' in t.order <==> r' == r || r' in s.order;
      assert RowCounter(s, r', if r' == r then false else Live(s, r'), busy);
      assert UnvisitedOk(t.cols, t.colsOf[r'], t.unvisited[r'], busy + {c});
    }
  }

  lemma {:induction false} MarkStructure(s: State, r: nat, c: nat, busy: set<nat>)
    requires Structure(s, busy) && Live(s, r) && r < |s.colsOf|
    requires c in s.colsOf[r] && s.cols[c].mark == Todo
    requires forall c' :: c' in s.colsOf[r] && c' != c ==> s.cols[c'].mark != Todo
    ensures Structure(AfterMark(s, r, c), busy + {c})
  {
    hide SolvesLast, Distinct, NextOf;
    var t := AfterMark(s, r, c);
    assert Shape(t);
    MarkLists(s, r, c);
    MarkMarks(s, r, c);
    RefsSame(s, t);
    assert PeeledOk(t.rows, t.cols, t.colsOf, t.order, t.solved) by {
      assert forall c' :: c' in s.colsOf[r] && c' != c ==> s.cols[c'].mark == Deferred || c' in s.solved;
      hide ListsOk, MarksOk, RefsOk, Chain;
      MarkPeeled(s.rows, t.rows, s.cols, s.colsOf, s.order, s.solved, r, c);
    }
    MarkDeferred(s.cols, s.colsOf, s.deferRows, c);
    hide ListsOk, MarksOk, RefsOk, Chain, PeeledOk, DeferredOk;
  }

  lemma {:induction false} PeelKeeps(s: State, r: nat, c: nat, busy: set<nat>)
    requires InvBut(s, busy, r) && Live(s, r) && RowCounter(s, r, false, busy)
    requires c in s.colsOf[r] && s.cols[c].mark == Todo
    requires forall c' :: c' in s.colsOf[r] && c' != c ==> s.cols[c'].mark != Todo
    ensures Inv(AfterMark(s, r, c), busy + {c})
    ensures forall r' :: 0 <= r' < |s.colsOf| && c in s.colsOf[r'] ==> c in s.unvisited[r']
  {
    hide RefsOk, Chain, MarksOk, PeeledOk, DeferredOk, RowCounter;
    assert forall i :: 0 <= i < |s.order| ==> s.order[i] != r;
    MarkCounters(s, r, c, busy);
    hide ListsOk, CountersBut;
    MarkStructure(s, r, c, busy);
  }
}
