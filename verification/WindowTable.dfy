/** Building and applying a window table in the blocks of peeled columns (src/fec/Wirehair.cpp). */
module WindowTable {
  import opened ColumnIterator
  import opened PeelState
  import opened Blocks
  import opened GaloisField
  import opened Triangle
  import opened Windows
  import opened Substitution

  /** Peeled columns are not elimination columns, so their blocks are free for scratch. */
  ghost predicate ScratchFree(elim: Eliminator)
    reads elim, elim.comp, elim.comp.peel
  {
    var comp := elim.comp;
    && |comp.peel.cols| == comp.pr.n <= |comp.recovery|
    && forall c :: 0 <= c < comp.pr.n && comp.peel.cols[c].mark == Solved ==> c !in comp.colMap
  }

  predicate IsPower(x: nat) { x == 1 || x == 2 || x == 4 || x == 8 || x == 16 || x == 32 || x == 64 }

  /** Entries that are no power of two have scratch slots of their own. */
  ghost predicate Slots(table: seq<nat>, colMap: seq<nat>, size: nat) {
    && (forall x :: 0 < x < |table| && !IsPower(x) ==> table[x] < size && table[x] !in colMap)
    && forall x, y :: 0 < x < y < |table| && !IsPower(x) && !IsPower(y) ==> table[x] != table[y]
  }

  /** Entries 1..m-1 hold the sums of the window's values they stand for. */
  ghost predicate Filled(recovery: seq<Block>, table: seq<nat>, vals: seq<Block>, p: nat, w: nat, m: nat) {
    && p + w <= |vals| && m <= Pow2(w) && m <= |table|
    && forall x :: 0 < x < m ==> table[x] < |recovery| && recovery[table[x]] == TableSum(vals, p, w, x)
  }

  /** Entries that are powers of two are the window's own columns. */
  ghost predicate Mapped(table: seq<nat>, colMap: seq<nat>, p: nat, w: nat) {
    p + w <= |colMap| && forall b :: 0 <= b < w ==> Pow2(b) < |table| && table[Pow2(b)] == colMap[p + b]
  }

  lemma Powers(b: nat)
    requires b <= 6
    ensures IsPower(Pow2(b)) && Pow2(b + 1) == 2 * Pow2(b) <= 128
    ensures forall x :: Pow2(b) < x < Pow2(b + 1) ==> !IsPower(x)
    ensures forall x :: 0 < x < Pow2(b) && IsPower(x) ==> exists c :: 0 <= c < b && Pow2(c) == x
  {
    assert Pow2(0) == 1;
    assert Pow2(1) == 2;
    assert Pow2(2) == 4;
    assert Pow2(3) == 8;
    assert Pow2(4) == 16;
    assert Pow2(5) == 32;
    assert Pow2(6) == 64;
  }

  /** The first peeled columns, as table slots from entry one on. */
  method FindScratch(elim: Eliminator, lim: nat) returns (table: seq<nat>, enough: bool)
    requires InForm(elim) && ScratchFree(elim) && lim > 0
    ensures enough ==> |table| == lim && Slots(table, elim.comp.colMap, |elim.comp.recovery|)
  {
    hide InForm;
    var comp := elim.comp;
    table := [0];
    for c := 0 to comp.pr.n
      invariant 0 < |table| <= lim
      invariant forall x :: 0 < x < |table| ==> table[x] < c && comp.peel.cols[table[x]].mark == Solved
      invariant forall x, y :: 0 < x < y < |table| ==> table[x] < table[y]
    {
      if |table| < lim && comp.peel.cols[c].mark == Solved {
        table := table + [c];
      }
    }
    enough := |table| >= lim;
  }

  /** Sets one scratch entry to the sum of two others. */
  method SetEntry(elim: Eliminator, table: seq<nat>, x: nat, y: nat, z: nat)
    requires InForm(elim) && Slots(table, elim.comp.colMap, |elim.comp.recovery|) && 0 < x < |table| && !IsPower(x)
    requires 0 < y < |table| && 0 < z < |table| && table[y] < |elim.comp.recovery| && table[z] < |elim.comp.recovery|
    modifies elim.comp`recovery
    ensures elim.comp.recovery
              == old(elim.comp.recovery)[table[x] := Add(old(elim.comp.recovery)[table[y]],
                                                         old(elim.comp.recovery)[table[z]])]
    ensures InForm(elim) && Us(elim) == old(Us(elim)) && Vals(elim) == old(Vals(elim))
  {
    hide IsField, Add, Distinct;
    var comp := elim.comp;
    var sum := Add(comp.recovery[table[y]], comp.recovery[table[z]]);
    PullOff(comp.recovery, comp.recovery[table[x] := sum], comp.colMap);
    comp.recovery := comp.recovery[table[x] := sum];
  }

  /** One more bit: the new column's own block, and its sums with every smaller entry. */
  method WidenTable(elim: Eliminator, table: seq<nat>, p: nat, b: nat) returns (table': seq<nat>)
    requires InForm(elim) && b <= 6 && p + b < elim.Width() && Pow2(b + 1) <= |table|
    requires Slots(table, elim.comp.colMap, |elim.comp.recovery|)
    requires Filled(elim.comp.recovery, table, Vals(elim), p, b, Pow2(b)) && Mapped(table, elim.comp.colMap, p, b)
    modifies elim.comp`recovery
    ensures InForm(elim) && Us(elim) == old(Us(elim)) && Vals(elim) == old(Vals(elim))
    ensures |elim.comp.recovery| == old(|elim.comp.recovery|)
    ensures |table'| == |table| && Slots(table', elim.comp.colMap, |elim.comp.recovery|)
    ensures Filled(elim.comp.recovery, table', Vals(elim), p, b + 1, Pow2(b + 1))
    ensures Mapped(table', elim.comp.colMap, p, b + 1)
  {
    hide InForm, IsField, Add, TableSum, IsPower, Pow2, Us, Slots, Filled, Mapped;
    var comp := elim.comp;
    var half := Pow2(b);
    Powers(b);
    PowerFits(elim, b, p, |table|);
    table' := table[half := comp.colMap[p + b]];
    NewPower(comp.recovery, table, table', Vals(elim), comp.colMap, p, b, |comp.recovery|);
    var ii := 1;
    while ii < half
      invariant 1 <= ii <= half && InForm(elim) && Us(elim) == old(Us(elim)) && Vals(elim) == old(Vals(elim))
      invariant |comp.recovery| == old(|comp.recovery|)
      invariant Filled(comp.recovery, table', Vals(elim), p, b + 1, half + ii)
    {
      EntryBounds(comp.recovery, table', Vals(elim), comp.colMap, p, b, ii);
      ghost var rec0 := comp.recovery;
      SetEntry(elim, table', half + ii, ii, half);
      FillNext(rec0, comp.recovery, table', Vals(elim), comp.colMap, p, b, ii);
      ii := ii + 1;
    }
  }

  lemma PowerFits(elim: Eliminator, b: nat, p: nat, size: nat)
    requires InForm(elim) && p + b < elim.Width() && Pow2(b + 1) <= size
    ensures Pow2(b) < size && p + b < |elim.comp.colMap| && elim.comp.colMap[p + b] < |elim.comp.recovery|
    ensures |Vals(elim)| == |elim.comp.colMap| && Vals(elim)[p + b] == elim.comp.recovery[elim.comp.colMap[p + b]]
    ensures Distinct(elim.comp.colMap)
  {}

  lemma NewPower(recovery: seq<Block>, table: seq<nat>, table': seq<nat>, vals: seq<Block>, colMap: seq<nat>, p: nat,
                 b: nat, size: nat)
    requires b <= 6 && Filled(recovery, table, vals, p, b, Pow2(b))
    requires Slots(table, colMap, size) && Mapped(table, colMap, p, b)
    requires p + b < |vals| == |colMap| && Pow2(b + 1) <= |table|
    requires colMap[p + b] < |recovery| && vals[p + b] == recovery[colMap[p + b]]
    requires table' == table[Pow2(b) := colMap[p + b]]
    ensures Filled(recovery, table', vals, p, b + 1, Pow2(b) + 1)
    ensures Slots(table', colMap, size) && Mapped(table', colMap, p, b + 1)
  {
    hide Filled, Slots, Mapped;
    NewPowerFilled(recovery, table, table', vals, colMap, p, b);
    NewPowerSlots(table, table', colMap, p, b, size);
  }

  lemma NewPowerSlots(table: seq<nat>, table': seq<nat>, colMap: seq<nat>, p: nat, b: nat, size: nat)
    requires b <= 6 && Slots(table, colMap, size) && Mapped(table, colMap, p, b)
    requires p + b < |colMap| && Pow2(b + 1) <= |table|
    requires Pow2(b) < |table| && table' == table[Pow2(b) := colMap[p + b]]
    ensures Slots(table', colMap, size) && Mapped(table', colMap, p, b + 1)
  {
    hide IsPower, Pow2;
    Powers(b);
    forall c | 0 <= c < b ensures Pow2(c) < Pow2(b) {
      PowerGrows(c, b);
    }
  }

  lemma NewPowerFilled(recovery: seq<Block>, table: seq<nat>, table': seq<nat>, vals: seq<Block>, colMap: seq<nat>,
                       p: nat, b: nat)
    requires b <= 6 && Filled(recovery, table, vals, p, b, Pow2(b)) && Pow2(b + 1) <= |table| && Pow2(b) < |table|
    requires p + b < |vals| == |colMap| && colMap[p + b] < |recovery| && vals[p + b] == recovery[colMap[p + b]]
    requires table' == table[Pow2(b) := colMap[p + b]]
    ensures Filled(recovery, table', vals, p, b + 1, Pow2(b) + 1)
  {
    hide Add, TableSum, IsPower;
    Powers(b);
    forall x | 0 < x < Pow2(b) + 1
      ensures table'[x] < |recovery| && recovery[table'[x]] == TableSum(vals, p, b + 1, x)
    {
      if x < Pow2(b) {
        TableWiden(vals, p, b, x);
      } else {
        TableWiden(vals, p, b, 0);
        TableZero(vals, p, b);
        AddZero(vals[p + b]);
      }
    }
  }

  lemma EntryBounds(recovery: seq<Block>, table: seq<nat>, vals: seq<Block>, colMap: seq<nat>, p: nat, b: nat, ii: nat)
    requires b <= 6 && 0 < ii < Pow2(b) && Filled(recovery, table, vals, p, b + 1, Pow2(b) + ii)
    requires Pow2(b + 1) <= |table| && Slots(table, colMap, |recovery|)
    ensures Pow2(b) + ii < |table| && table[ii] < |recovery| && table[Pow2(b)] < |recovery|
    ensures !IsPower(Pow2(b) + ii) && table[Pow2(b) + ii] < |recovery|
  {
    hide TableSum, IsPower;
    Powers(b);
  }

  lemma FillNext(rec0: seq<Block>, recovery: seq<Block>, table: seq<nat>, vals: seq<Block>, colMap: seq<nat>, p: nat,
                 b: nat, ii: nat)
    requires b <= 6 && 0 < ii < Pow2(b) && Filled(rec0, table, vals, p, b + 1, Pow2(b) + ii)
    requires Pow2(b + 1) <= |table| && Slots(table, colMap, |rec0|) && Mapped(table, colMap, p, b + 1)
    requires table[ii] < |rec0| && table[Pow2(b)] < |rec0| && table[Pow2(b) + ii] < |rec0|
    requires recovery == rec0[table[Pow2(b) + ii] := Add(rec0[table[ii]], rec0[table[Pow2(b)]])]
    ensures Filled(recovery, table, vals, p, b + 1, Pow2(b) + ii + 1)
  {
    hide Add, TableSum, IsPower;
    var x := Pow2(b) + ii;
    Powers(b);
    TableWiden(vals, p, b, ii);
    TableWiden(vals, p, b, 0);
    TableZero(vals, p, b);
    AddZero(vals[p + b]);
    forall y | 0 < y < x ensures table[y] != table[x] {
      if IsPower(y) {
        if y < Pow2(b) {
          var c :| 0 <= c < b && Pow2(c) == y;
        } else {
          assert y == Pow2(b);
        }
        assert table[y] in colMap;
      }
    }
  }

  lemma PowerGrows(c: nat, b: nat)
    requires c < b
    ensures Pow2(c) < Pow2(b)
  {
    if c + 1 < b {
      PowerGrows(c, b - 1);
    }
  }

  /** The whole table, a bit at a time: each level doubles it. */
  method BuildTable(elim: Eliminator, table: seq<nat>, p: nat, w: nat) returns (table': seq<nat>)
    requires InForm(elim) && w <= 7 && p + w <= elim.Width() && Pow2(w) <= |table|
    requires Slots(table, elim.comp.colMap, |elim.comp.recovery|)
    modifies elim.comp`recovery
    ensures InForm(elim) && Us(elim) == old(Us(elim)) && Vals(elim) == old(Vals(elim))
    ensures |elim.comp.recovery| == old(|elim.comp.recovery|)
    ensures |table'| == |table| && Slots(table', elim.comp.colMap, |elim.comp.recovery|)
    ensures Filled(elim.comp.recovery, table', Vals(elim), p, w, Pow2(w)) && Mapped(table', elim.comp.colMap, p, w)
  {
    hide InForm, TableSum, IsPower, Pow2, Us, Slots;
    table' := table;
    EmptyTable(elim, table, p);
    for b := 0 to w
      invariant InForm(elim) && Us(elim) == old(Us(elim)) && Vals(elim) == old(Vals(elim))
      invariant |elim.comp.recovery| == old(|elim.comp.recovery|)
      invariant |table'| == |table| && Slots(table', elim.comp.colMap, |elim.comp.recovery|)
      invariant Filled(elim.comp.recovery, table', Vals(elim), p, b, Pow2(b)) && Mapped(table', elim.comp.colMap, p, b)
    {
      PowerOrder(b + 1, w);
      table' := WidenTable(elim, table', p, b);
    }
  }

  lemma EmptyTable(elim: Eliminator, table: seq<nat>, p: nat)
    requires InForm(elim) && p <= elim.Width() && 1 <= |table|
    ensures Filled(elim.comp.recovery, table, Vals(elim), p, 0, Pow2(0)) && Mapped(table, elim.comp.colMap, p, 0)
  {}

  lemma PowerOrder(c: nat, b: nat)
    requires c <= b
    ensures Pow2(c) <= Pow2(b)
  {
    if c < b {
      PowerGrows(c, b);
    }
  }

  // Writing an elimination column outside the window leaves the table alone.
  lemma TableKept(recovery: seq<Block>, table: seq<nat>, vals: seq<Block>, colMap: seq<nat>, p: nat, w: nat, i: nat,
                  x: Block)
    requires w <= 7 && Filled(recovery, table, vals, p, w, Pow2(w))
    requires Mapped(table, colMap, p, w) && Slots(table, colMap, |recovery|)
    requires Distinct(colMap) && i < |colMap| && !(p <= i < p + w) && colMap[i] < |recovery|
    ensures Filled(recovery[colMap[i] := x], table, vals, p, w, Pow2(w))
  {
    hide TableSum, IsPower;
    forall y | 0 < y < Pow2(w) ensures table[y] != colMap[i] {
      if IsPower(y) {
        if w == 7 { Powers(6); } else { Powers(w); }
        var c := PowerOf(y, w);
        assert table[Pow2(c)] == colMap[p + c];
      } else {
        assert colMap[i] in colMap;
      }
    }
  }

  lemma PowerOf(y: nat, w: nat) returns (c: nat)
    requires IsPower(y) && 0 < y < Pow2(w) && w <= 7
    ensures c < w && Pow2(c) == y
  {
    c := if y == 1 then 0 else if y == 2 then 1 else if y == 4 then 2 else if y == 8 then 3 else if y == 16 then 4
         else if y == 32 then 5 else 6;
    assert Pow2(0) == 1;
    assert Pow2(1) == 2;
    assert Pow2(2) == 4;
    assert Pow2(3) == 8;
    assert Pow2(4) == 16;
    assert Pow2(5) == 32;
    assert Pow2(6) == 64;
    if c >= w {
      PowerOrder(w, c);
    }
  }

  /** Adds to value i of a binary row, in one block operation, its whole window. */
  method ApplyTable(elim: Eliminator, table: seq<nat>, i: nat, p: nat, w: nat, ghost vals: seq<Block>)
    requires InForm(elim) && w <= 7 && p + w <= elim.Width() && Pow2(w) <= |table|
    requires i < elim.Width() && !(p <= i < p + w) && elim.pivots[i] < elim.Light()
    requires Slots(table, elim.comp.colMap, |elim.comp.recovery|) && Mapped(table, elim.comp.colMap, p, w)
    requires Filled(elim.comp.recovery, table, vals, p, w, Pow2(w)) && |vals| == elim.Width() && p + w <= |Us(elim)[i]|
    modifies elim.comp`recovery
    ensures InForm(elim) && Us(elim) == old(Us(elim)) && |elim.comp.recovery| == old(|elim.comp.recovery|)
    ensures Vals(elim) == old(Vals(elim))[i := Add(old(Vals(elim))[i], Span(elim.f, Us(elim)[i], vals, p, w))]
    ensures Filled(elim.comp.recovery, table, vals, p, w, Pow2(w))
  {
    hide IsField, Add, TableSum, IsPower, Pow2, WindowBits, Slots, Mapped, Span, Distinct, Scale;
    var comp := elim.comp;
    var bits := WindowBits(comp.ge[elim.pivots[i]], p, w);
    TableIsSpan(elim.f, comp.ge[elim.pivots[i]], vals, p, w);
    FullAt(comp.ge, elim.heavy, elim.firstHeavyColumn, elim.pivots[i], 0);
    if bits != 0 {
      var sum := Add(comp.recovery[comp.colMap[i]], comp.recovery[table[bits]]);
      TableKept(comp.recovery, table, vals, comp.colMap, p, w, i, sum);
      PullSet(comp.recovery, comp.colMap, i, sum);
      comp.recovery := comp.recovery[comp.colMap[i] := sum];
    } else {
      TableZero(vals, p, w);
      AddZero(comp.recovery[comp.colMap[i]]);
      assert Vals(elim) == Vals(elim)[i := Vals(elim)[i]];
    }
  }
}
