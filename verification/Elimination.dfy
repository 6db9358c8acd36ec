/** The algebra of in-place elimination: P*A = L*U with L and U in one matrix, and the two substitutions
    (src/fec/Wirehair.cpp, part 3). */
module Elimination {
  import opened ColumnIterator
  import opened Blocks
  import opened GaloisField

  // ---- Factoring ----

  /** Row of L times the rows of U: the first e multipliers of row, each times its pivot row from the diagonal on. */
  ghost function LU(f: Tables, row: Row, us: seq<Row>, e: nat): (r: Row)
    requires e <= |us| && e <= |row| && forall j :: 0 <= j < |us| ==> |us[j]| == |row|
    ensures |r| == |row|
  {
    if e == 0 then ZeroRow(|row|) else AddRow(LU(f, row, us, e - 1), ScaleRow(f, row[e - 1], Tail(us[e - 1], e - 1)))
  }

  /** After e eliminations a row holds e multipliers and then its remainder. */
  ghost predicate RowFactored(f: Tables, orig: Row, row: Row, us: seq<Row>, e: nat) {
    && e <= |us| && e <= |row| == |orig| && (forall j :: 0 <= j < |us| ==> |us[j]| == |row|)
    && orig == AddRow(LU(f, row, us, e), Tail(row, e))
  }

  /** One elimination in place: the multiplier replaces the entry it clears; earlier entries stay. */
  function Eliminate(f: Tables, row: Row, u: Row, k: nat): (r: Row)
    requires k < |row| == |u|
    ensures |r| == |row|
  {
    var m := f.Div(row[k], u[k]);
    seq(|row|, j requires 0 <= j < |row| => if j < k then row[j] else if j == k then m else Xor(row[j], f.Mul(m, u[j])))
  }

  lemma {:induction false} LUSame(f: Tables, row: Row, row': Row, us: seq<Row>, us': seq<Row>, e: nat)
    requires e <= |us| && e <= |us'| && e <= |row| == |row'|
    requires forall j :: 0 <= j < |us| ==> |us[j]| == |row|
    requires forall j :: 0 <= j < |us'| ==> |us'[j]| == |row|
    requires forall j :: 0 <= j < e ==> row[j] == row'[j] && us[j] == us'[j]
    ensures LU(f, row, us, e) == LU(f, row', us', e)
  {
    if e > 0 {
      LUSame(f, row, row', us, us', e - 1);
    }
  }

  lemma TailEliminated(f: Tables, row: Row, u: Row, k: nat)
    requires IsField(f) && k < |row| == |u| && u[k] != ZERO
    ensures var row' := Eliminate(f, row, u, k);
            Tail(row, k) == AddRow(ScaleRow(f, row'[k], Tail(u, k)), Tail(row', k + 1))
  {
    hide IsField, Xor;
    var row' := Eliminate(f, row, u, k);
    var m := f.Div(row[k], u[k]);
    var both := AddRow(ScaleRow(f, m, Tail(u, k)), Tail(row', k + 1));
    forall j | 0 <= j < |row| ensures Tail(row, k)[j] == both[j] {
      MulZero(f, m);
      DivMul(f, row[k], u[k]);
      XorUnit(ZERO);
      XorUnit(row[k]);
      XorAssoc(f.Mul(m, u[j]), row[j], f.Mul(m, u[j]));
      XorComm(row[j], f.Mul(m, u[j]));
      XorAssoc(f.Mul(m, u[j]), f.Mul(m, u[j]), row[j]);
      XorUnit(f.Mul(m, u[j]));
      XorUnit(row[j]);
    }
  }

  lemma AddRowAssoc(a: Row, b: Row, c: Row)
    requires |a| == |b| == |c|
    ensures AddRow(AddRow(a, b), c) == AddRow(a, AddRow(b, c))
  {
    hide Xor;
    forall i | 0 <= i < |a| ensures AddRow(AddRow(a, b), c)[i] == AddRow(a, AddRow(b, c))[i] {
      XorAssoc(a[i], b[i], c[i]);
    }
  }

  /** Eliminating with pivot row us[k] keeps the factorisation and extends it by one. */
  lemma {:induction false} EliminateKeeps(f: Tables, orig: Row, row: Row, us: seq<Row>, k: nat)
    requires IsField(f) && RowFactored(f, orig, row, us, k)
    requires k < |us| && k < |row| && us[k][k] != ZERO
    ensures RowFactored(f, orig, Eliminate(f, row, us[k], k), us, k + 1)
  {
    hide IsField, Xor;
    var row' := Eliminate(f, row, us[k], k);
    LUSame(f, row, row', us, us, k);
    TailEliminated(f, row, us[k], k);
    AddRowAssoc(LU(f, row, us, k), ScaleRow(f, row'[k], Tail(us[k], k)), Tail(row', k + 1));
  }

  lemma {:induction false} LUNone(f: Tables, row: Row, us: seq<Row>, e: nat)
    requires IsField(f) && e <= |us| && e <= |row| && (forall j :: 0 <= j < |us| ==> |us[j]| == |row|)
    requires forall j :: 0 <= j < e ==> row[j] == ZERO
    ensures LU(f, row, us, e) == ZeroRow(|row|)
  {
    hide IsField, Xor;
    if e > 0 {
      LUNone(f, row, us, e - 1);
      var r := LU(f, row, us, e);
      forall i | 0 <= i < |row| ensures r[i] == ZERO {
        MulZero(f, Tail(us[e - 1], e - 1)[i]);
        XorUnit(ZERO);
      }
    }
  }

  /** A row that is zero in the first k columns needs none of the first k eliminations. */
  lemma ZeroFactored(f: Tables, row: Row, us: seq<Row>, k: nat)
    requires IsField(f) && k <= |us| && k <= |row| && (forall j :: 0 <= j < |us| ==> |us[j]| == |row|)
    requires forall j :: 0 <= j < k ==> row[j] == ZERO
    ensures RowFactored(f, row, row, us, k)
  {
    hide IsField, Xor;
    LUNone(f, row, us, k);
    forall i | 0 <= i < |row| ensures row[i] == AddRow(ZeroRow(|row|), Tail(row, k))[i] {
      XorUnit(row[i]);
    }
  }

  // ---- The whole matrix ----

  ghost function PivotRows(rows: seq<Row>, pivots: seq<nat>): (us: seq<Row>)
    ensures |us| == |pivots|
  {
    seq(|pivots|, i requires 0 <= i < |pivots| => if pivots[i] < |rows| then rows[pivots[i]] else [])
  }

  function Depth(a: nat, b: nat): nat { if a < b then a else b }

  ghost predicate Rectangular(rows: seq<Row>, n: nat) {
    forall r :: 0 <= r < |rows| ==> |rows[r]| == n
  }

  /** P*A = L*U as far as the first k columns: each listed row is factored up to its own pivot, or column k. */
  ghost predicate Factored(f: Tables, a: seq<Row>, rows: seq<Row>, pivots: seq<nat>, k: nat, n: nat) {
    && |a| == |rows| && Rectangular(rows, n) && k <= n && k <= |pivots| && Distinct(pivots)
    && (forall i :: 0 <= i < |pivots| ==> pivots[i] < |rows|)
    && (forall j :: 0 <= j < k ==> PivotRows(rows, pivots)[j][j] != ZERO)
    && (forall i :: 0 <= i < |pivots| ==>
          RowFactored(f, a[pivots[i]], rows[pivots[i]], PivotRows(rows, pivots)[..k], Depth(i, k)))
  }

  // Only the first e pivot rows matter to a row that is factored up to e.
  lemma RefactorRow(f: Tables, orig: Row, row: Row, us: seq<Row>, us': seq<Row>, e: nat)
    requires RowFactored(f, orig, row, us, e) && e <= |us'| && forall j :: 0 <= j < |us'| ==> |us'[j]| == |row|
    requires forall j :: 0 <= j < e ==> us[j] == us'[j]
    ensures RowFactored(f, orig, row, us', e)
  {
    LUSame(f, row, row, us, us', e);
  }

  /** The matrix after pivot row k has been eliminated from every row listed after it. */
  ghost predicate ColumnCleared(f: Tables, rows: seq<Row>, rows': seq<Row>, pivots: seq<nat>, k: nat, n: nat) {
    && |rows'| == |rows| && Rectangular(rows, n) && k < n && k < |pivots| && Distinct(pivots)
    && (forall i :: 0 <= i < |pivots| ==> pivots[i] < |rows|)
    && (forall i :: 0 <= i < |pivots| ==>
          rows'[pivots[i]] == if i <= k then rows[pivots[i]] else Eliminate(f, rows[pivots[i]], rows[pivots[k]], k))
    && (forall r :: 0 <= r < |rows| && r !in pivots ==> rows'[r] == rows[r])
  }

  lemma {:induction false} ClearKeeps(f: Tables, a: seq<Row>, rows: seq<Row>, rows': seq<Row>, pivots: seq<nat>, k: nat,
                                      n: nat)
    requires IsField(f) && Factored(f, a, rows, pivots, k, n) && ColumnCleared(f, rows, rows', pivots, k, n)
    requires rows[pivots[k]][k] != ZERO
    ensures Factored(f, a, rows', pivots, k + 1, n)
  {
    hide IsField, RowFactored, Eliminate;
    var us, us' := PivotRows(rows, pivots)[..k], PivotRows(rows', pivots)[..k + 1];
    assert Rectangular(rows', n) by {
      forall r | 0 <= r < |rows'| ensures |rows'[r]| == n {
        if r in pivots {
          var i :| 0 <= i < |pivots| && pivots[i] == r;
        }
      }
    }
    assert forall j :: 0 <= j < k + 1 ==> PivotRows(rows', pivots)[j] == PivotRows(rows, pivots)[j];
    forall i | 0 <= i < |pivots|
      ensures RowFactored(f, a[pivots[i]], rows'[pivots[i]], us', Depth(i, k + 1))
    {
      ClearRow(f, a[pivots[i]], rows[pivots[i]], rows'[pivots[i]], us, us', i, k, n);
    }
  }

  lemma ClearRow(f: Tables, orig: Row, row: Row, row': Row, us: seq<Row>, us': seq<Row>, i: nat, k: nat, n: nat)
    requires IsField(f) && |us| == k && |us'| == k + 1 && us'[..k] == us && |row| == n && k < n
    requires Rectangular(us', n) && us'[k][k] != ZERO
    requires RowFactored(f, orig, row, us, Depth(i, k))
    requires row' == if i <= k then row else Eliminate(f, row, us'[k], k)
    ensures RowFactored(f, orig, row', us', Depth(i, k + 1))
  {
    hide IsField, RowFactored, Eliminate;
    RefactorRow(f, orig, row, us, us', Depth(i, k));
    if i > k {
      EliminateKeeps(f, orig, row, us', k);
    }
  }

  lemma TailIndex(p: seq<nat>, k: nat, x: nat) returns (j: nat)
    requires k <= |p| && x in p[k..]
    ensures k <= j < |p| && p[j] == x
  {
    var t :| 0 <= t < |p[k..]| && p[k..][t] == x;
    j := k + t;
  }

  /** Reordering the rows that are not yet pivots changes nothing. */
  lemma {:induction false} ReorderKeeps(f: Tables, a: seq<Row>, rows: seq<Row>, pivots: seq<nat>, pivots': seq<nat>,
                                        k: nat, n: nat)
    requires Factored(f, a, rows, pivots, k, n)
    requires |pivots'| == |pivots| && Distinct(pivots') && (forall i :: 0 <= i < k ==> pivots'[i] == pivots[i])
    requires forall i :: k <= i < |pivots'| ==> pivots'[i] in pivots[k..]
    ensures Factored(f, a, rows, pivots', k, n)
  {
    hide RowFactored, Rectangular;
    assert PivotRows(rows, pivots)[..k] == PivotRows(rows, pivots')[..k];
    forall i | 0 <= i < |pivots'|
      ensures pivots'[i] < |rows|
      ensures RowFactored(f, a[pivots'[i]], rows[pivots'[i]], PivotRows(rows, pivots')[..k], Depth(i, k))
    {
      var j := i;
      if i >= k {
        j := TailIndex(pivots, k, pivots'[i]);
      }
      assert RowFactored(f, a[pivots[j]], rows[pivots[j]], PivotRows(rows, pivots)[..k], Depth(j, k));
    }
    assert forall j :: 0 <= j < k ==> PivotRows(rows, pivots)[j] == PivotRows(rows, pivots')[j];
  }

  /** Rows that are zero before column k may join the list once the first k pivots are done. */
  lemma {:induction false} JoinKeeps(f: Tables, a: seq<Row>, rows: seq<Row>, pivots: seq<nat>, more: seq<nat>, k: nat,
                                     n: nat)
    requires IsField(f) && Factored(f, a, rows, pivots, k, n) && Distinct(pivots + more)
    requires forall i :: 0 <= i < |more| ==> more[i] < |rows| && rows[more[i]] == a[more[i]]
    requires forall i, j :: 0 <= i < |more| && 0 <= j < k ==> rows[more[i]][j] == ZERO
    ensures Factored(f, a, rows, pivots + more, k, n)
  {
    hide IsField, RowFactored, Rectangular, Distinct;
    var all := pivots + more;
    var us := PivotRows(rows, pivots)[..k];
    PivotRowsJoin(rows, pivots, more, k);
    PivotWidths(rows, pivots, k, n);
    assert forall i :: 0 <= i < |all| ==> all[i] == if i < |pivots| then pivots[i] else more[i - |pivots|];
    forall i | 0 <= i < |all|
      ensures RowFactored(f, a[all[i]], rows[all[i]], us, Depth(i, k))
    {
      if i >= |pivots| {
        assert all[i] == more[i - |pivots|];
        ZeroFactored(f, rows[all[i]], us, k);
      }
    }
  }

  lemma PivotRowsJoin(rows: seq<Row>, pivots: seq<nat>, more: seq<nat>, k: nat)
    requires k <= |pivots|
    ensures PivotRows(rows, pivots)[..k] == PivotRows(rows, pivots + more)[..k]
    ensures forall j :: 0 <= j < k ==> PivotRows(rows, pivots + more)[j] == PivotRows(rows, pivots)[j]
  {}

  lemma PivotWidths(rows: seq<Row>, pivots: seq<nat>, k: nat, n: nat)
    requires Rectangular(rows, n) && k <= |pivots| && forall i :: 0 <= i < |pivots| ==> pivots[i] < |rows|
    ensures forall j :: 0 <= j < k ==> |PivotRows(rows, pivots)[..k][j]| == n
    ensures forall x :: 0 <= x < |rows| ==> |rows[x]| == n
  {}

  /** Nothing eliminated yet. */
  lemma FactoredStart(f: Tables, a: seq<Row>, pivots: seq<nat>, n: nat)
    requires Rectangular(a, n) && Distinct(pivots) && forall i :: 0 <= i < |pivots| ==> pivots[i] < |a|
    ensures Factored(f, a, a, pivots, 0, n)
  {
    hide Xor;
    forall i | 0 <= i < |pivots| ensures RowFactored(f, a[pivots[i]], a[pivots[i]], PivotRows(a, pivots)[..0], 0) {
      var row := a[pivots[i]];
      forall j | 0 <= j < n ensures row[j] == AddRow(ZeroRow(n), Tail(row, 0))[j] {
        XorUnit(row[j]);
      }
    }
  }
}
