/** How a new row enters the peeling graph: references, unmarked count, and the way back out (src/fec/Wirehair.cpp). */
module PeelFeed {
  import opened ColumnIterator
  import opened CheckMatrix
  import opened PeelState

  /** refs is base with row r appended to the list of every column seen. */
  ghost predicate Referenced(base: seq<seq<nat>>, refs: seq<seq<nat>>, seen: seq<nat>, r: nat) {
    && |refs| == |base|
    && forall c: nat :: c < |base| ==> refs[c] == if c in seen then base[c] + [r] else base[c]
  }

  lemma ReferenceOne(base: seq<seq<nat>>, refs: seq<seq<nat>>, all: seq<nat>, i: nat, r: nat)
    requires Distinct(all) && i < |all| && all[i] < |base| && Referenced(base, refs, all[..i], r)
    ensures refs[all[i]] == base[all[i]]
    ensures Referenced(base, refs[all[i] := refs[all[i]] + [r]], all[..i + 1], r)
  {
    assert all[..i + 1] == all[..i] + [all[i]];
    assert all[i] !in all[..i];
  }

  lemma UnreferenceOne(base: seq<seq<nat>>, refs: seq<seq<nat>>, all: seq<nat>, i: nat, k: nat, r: nat)
    requires Distinct(all) && i < k <= |all| && all[i] < |base| && Referenced(base, refs, all[i..k], r)
    ensures |refs[all[i]]| > 0 && Referenced(base, refs[all[i] := refs[all[i]][..|refs[all[i]]| - 1]], all[i + 1..k], r)
  {
    assert all[i..k] == [all[i]] + all[i + 1..k];
    assert all[i] !in all[i + 1..k];
  }

  ghost function TodoAmong(cols: seq<PeelColumn>, seen: seq<nat>): set<nat> {
    set c | c in seen && c < |cols| && cols[c].mark == Todo
  }

  /** count unmarked columns so far; the first two are remembered. */
  ghost predicate Counted(cols: seq<PeelColumn>, seen: seq<nat>, count: nat, first: nat, second: nat) {
    && |TodoAmong(cols, seen)| == count
    && (count == 1 ==> TodoAmong(cols, seen) == {first})
    && (count == 2 ==> TodoAmong(cols, seen) == {first, second})
  }

  lemma CountOne(cols: seq<PeelColumn>, all: seq<nat>, i: nat, count: nat, first: nat, second: nat)
    requires Distinct(all) && i < |all| && all[i] < |cols| && Counted(cols, all[..i], count, first, second)
    ensures if cols[all[i]].mark == Todo then
              Counted(cols, all[..i + 1], count + 1,
                      if count % 2 == 0 then all[i] else first, if count % 2 == 0 then second else all[i])
            else Counted(cols, all[..i + 1], count, first, second)
  {
    assert all[..i + 1] == all[..i] + [all[i]];
    assert all[i] !in all[..i];
    var u, u' := TodoAmong(cols, all[..i]), TodoAmong(cols, all[..i + 1]);
    if cols[all[i]].mark == Todo {
      assert u' == u + {all[i]};
      if count == 0 {
        assert u == {};
      }
    } else {
      assert u' == u;
    }
  }

  /** The state once row r = |colsOf| is referenced and counted, before its counter is acted on. */
  ghost function AfterFeed(s: State, rows: seq<PeelRow>, refs: seq<seq<nat>>, colSet: set<nat>, u: set<nat>): State {
    s.(rows := rows, refs := refs, colsOf := s.colsOf + [colSet], unvisited := s.unvisited + [u])
  }

  lemma FedRefs(base: seq<seq<nat>>, refs: seq<seq<nat>>, all: seq<nat>, colsOf: seq<set<nat>>)
    requires Referenced(base, refs, all, |colsOf|)
    requires forall c :: 0 <= c < |base| ==> Lists(base[c], c, colsOf)
    ensures forall c :: 0 <= c < |base| ==> Lists(refs[c], c, colsOf + [set c | c in all])
  {
    var colSet := set c | c in all;
    var colsOf' := colsOf + [colSet];
    forall c | 0 <= c < |base| ensures Lists(refs[c], c, colsOf') {
      assert Lists(base[c], c, colsOf);
      forall r | 0 <= r < |colsOf'| && c in colsOf'[r] ensures r in refs[c] {
        if r < |colsOf| {
          assert c in colsOf[r];
        }
      }
    }
  }

  lemma FedStructure(s: State, rows: seq<PeelRow>, refs: seq<seq<nat>>, all: seq<nat>, u: set<nat>)
    requires Structure(s, {}) && |s.colsOf| < |s.rows| == |rows| < LIST_TERM
    requires forall i :: 0 <= i < |rows| && i != |s.colsOf| ==> rows[i] == s.rows[i]
    requires Referenced(s.refs, refs, all, |s.colsOf|) && forall i :: 0 <= i < |all| ==> all[i] < |s.cols|
    ensures Structure(AfterFeed(s, rows, refs, (set c | c in all), u), {})
  {
    hide Distinct, SolvesLast, AllMarked, NextOf, Lists;
    var t := AfterFeed(s, rows, refs, (set c | c in all), u);
    ChainSame(s.rows, rows, s.headRows, s.order);
    ChainSame(s.rows, rows, s.deferHeadRows, s.deferRows);
    FedRefs(s.refs, refs, all, s.colsOf);
    assert ListsOk(t) && MarksOk(t) && RefsOk(t) && Shape(t);
  }

  /** A new row is live, and all but its own counter are as before. */
  lemma Fed(s: State, rows: seq<PeelRow>, refs: seq<seq<nat>>, all: seq<nat>, u: set<nat>)
    requires Inv(s, {}) && |s.colsOf| < |s.rows| == |rows| < LIST_TERM
    requires forall i :: 0 <= i < |rows| && i != |s.colsOf| ==> rows[i] == s.rows[i]
    requires Referenced(s.refs, refs, all, |s.colsOf|) && forall i :: 0 <= i < |all| ==> all[i] < |s.cols|
    requires u == TodoAmong(s.cols, all)
    ensures var t := AfterFeed(s, rows, refs, (set c | c in all), u);
            && InvBut(t, {}, |s.colsOf|) && Live(t, |s.colsOf|)
            && UnvisitedOk(t.cols, t.colsOf[|s.colsOf|], t.unvisited[|s.colsOf|], {})
  {
    var t := AfterFeed(s, rows, refs, (set c | c in all), u);
    FedStructure(s, rows, refs, all, u);
    var r := |s.colsOf|;
    hide RefsOk, MarksOk, PeeledOk, DeferredOk, Distinct, Chain, CountOk;
    forall r': nat | r' < r ensures RowCounter(t, r', Live(t, r'), {}) {
      InvRow(s, r', {});
    }
  }
}
