/** SetupTriangle, InsertHeavyRows, TriangleNonHeavy and Triangle: elimination in place, binary rows before heavy ones
    (src/fec/Wirehair.cpp). */
module Triangle {
  import opened ColumnIterator
  import opened CheckMatrix
  import opened Blocks
  import opened GaloisField
  import opened HeavyWindow
  import opened Elimination
  import opened Solving
  import opened Compressing

  // ---- Two matrices read as one ----

  /** The elimination matrix: the bit rows, then the heavy rows, which are zero before column fhc. */
  ghost function FullRows(ge: seq<Bits>, heavy: seq<Row>, fhc: nat): (rows: seq<Row>)
    ensures |rows| == |ge| + |heavy|
  {
    seq(|ge| + |heavy|, r requires 0 <= r < |ge| + |heavy| => if r < |ge| then Lift(ge[r])
                                                              else ZeroRow(fhc) + heavy[r - |ge|])
  }

  /** The same elimination on bits: bit k stays behind as the multiplier, later bits are added. */
  function EliminateBits(row: Bits, u: Bits, k: nat): (r: Bits)
    requires k < |row| == |u|
    ensures |r| == |row|
  {
    seq(|row|, j requires 0 <= j < |row| => if j <= k then row[j] else row[j] != u[j])
  }

  lemma OneIsUnit(f: Tables, x: Byte)
    requires IsField(f)
    ensures f.Div(x, ONE) == x && f.Mul(x, ONE) == x && f.Mul(ONE, x) == x
  {
    hide IsField, Xor;
    MulLaws(f, x, ONE, ONE);
    MulLaws(f, f.Div(x, ONE), ONE, ONE);
  }

  lemma EliminateLifted(f: Tables, row: Bits, u: Bits, k: nat)
    requires IsField(f) && k < |row| == |u| && row[k] && u[k]
    ensures Eliminate(f, Lift(row), Lift(u), k) == Lift(EliminateBits(row, u, k))
  {
    hide IsField, Xor;
    OneIsUnit(f, ONE);
    MulZero(f, ONE);
    XorUnit(ONE);
    XorUnit(ZERO);
  }

  lemma EliminateNone(f: Tables, row: Row, u: Row, k: nat)
    requires IsField(f) && k < |row| == |u| && row[k] == ZERO && u[k] != ZERO
    ensures Eliminate(f, row, u, k) == row
  {
    hide IsField, Xor;
    DivMul(f, ZERO, u[k]);
    forall j | 0 <= j < |row| ensures Eliminate(f, row, u, k)[j] == row[j] {
      MulZero(f, u[j]);
      XorUnit(row[j]);
    }
  }

  /** Adding a bit row times the code value to a heavy row, from heavy column k - fhc + 1 on. */
  function AddBits(h: Row, u: Bits, k: nat, fhc: nat, code: Byte): (r: Row)
    requires fhc <= k < |u| && |u| == fhc + |h|
    ensures |r| == |h|
  {
    seq(|h|, c requires 0 <= c < |h| => if c > k - fhc && u[c + fhc] then Xor(h[c], code) else h[c])
  }

  lemma AddBitsEliminates(f: Tables, h: Row, u: Bits, k: nat, fhc: nat)
    requires IsField(f) && fhc <= k < |u| == fhc + |h| && u[k]
    ensures Eliminate(f, ZeroRow(fhc) + h, Lift(u), k) == ZeroRow(fhc) + AddBits(h, u, k, fhc, h[k - fhc])
  {
    hide IsField, Xor;
    var code := h[k - fhc];
    OneIsUnit(f, code);
    MulZero(f, code);
    var r, r' := Eliminate(f, ZeroRow(fhc) + h, Lift(u), k), ZeroRow(fhc) + AddBits(h, u, k, fhc, code);
    forall j | 0 <= j < |u| ensures r[j] == r'[j] {
      if j >= fhc {
        XorUnit(h[j - fhc]);
      }
    }
  }

  lemma HeavyEliminates(f: Tables, h: Row, u: Row, k: nat, fhc: nat)
    requires fhc <= k < fhc + |h| && |u| == |h|
    ensures Eliminate(f, ZeroRow(fhc) + h, ZeroRow(fhc) + u, k) == ZeroRow(fhc) + Eliminate(f, h, u, k - fhc)
  {}

  // ---- Pivot lists ----

  function Swap(p: seq<nat>, i: nat, j: nat): (r: seq<nat>)
    requires i < |p| && j < |p|
    ensures |r| == |p|
  {
    p[j := p[i]][i := p[j]]
  }

  /** The lists agree before k and hold the same rows from k on. */
  ghost predicate Reordered(p: seq<nat>, p': seq<nat>, k: nat) {
    && |p'| == |p| && k <= |p| && Distinct(p')
    && (forall i :: 0 <= i < k ==> p'[i] == p[i])
    && (forall i :: k <= i < |p'| ==> p'[i] in p[k..])
    && (forall x :: x in p <==> x in p')
  }

  lemma SwapReorders(p: seq<nat>, k: nat, i: nat, j: nat)
    requires Distinct(p) && k <= i < |p| && k <= j < |p|
    ensures Reordered(p, Swap(p, i, j), k)
  {
    var p' := Swap(p, i, j);
    assert p[i] == p[k..][i - k] && p[j] == p[k..][j - k];
    forall t | k <= t < |p'| ensures p'[t] in p[k..] {
      assert p[t] == p[k..][t - k];
    }
    forall x | x in p ensures x in p' {
      var t :| 0 <= t < |p| && p[t] == x;
      assert p'[if t == i then j else if t == j then i else t] == x;
    }
  }

  lemma ReorderTwice(p: seq<nat>, p': seq<nat>, p'': seq<nat>, k: nat)
    requires Reordered(p, p', k) && Reordered(p', p'', k)
    ensures Reordered(p, p'', k)
  {
    forall i | k <= i < |p''| ensures p''[i] in p[k..] {
      var j :| 0 <= j < |p'[k..]| && p'[k..][j] == p''[i];
      assert p'[k + j] in p[k..];
    }
  }

  /** Of the rows listed after k, those at positions first..limit-1 have had pivot row k eliminated. */
  ghost predicate PartCleared(f: Tables, rows: seq<Row>, rows': seq<Row>, pivots: seq<nat>, k: nat, n: nat, first: nat,
                              limit: nat) {
    && |rows'| == |rows| && Rectangular(rows, n) && k < n && k < first <= limit <= |pivots| && Distinct(pivots)
    && (forall i :: 0 <= i < |pivots| ==> pivots[i] < |rows|)
    && (forall i :: 0 <= i < |pivots| ==>
          rows'[pivots[i]] == if first <= i < limit then Eliminate(f, rows[pivots[i]], rows[pivots[k]], k)
                              else rows[pivots[i]])
    && (forall r :: 0 <= r < |rows| && r !in pivots ==> rows'[r] == rows[r])
  }

  lemma PartNone(f: Tables, rows: seq<Row>, pivots: seq<nat>, k: nat, n: nat, first: nat)
    requires Rectangular(rows, n) && k < n && k < first <= |pivots| && Distinct(pivots)
    requires forall i :: 0 <= i < |pivots| ==> pivots[i] < |rows|
    ensures PartCleared(f, rows, rows, pivots, k, n, first, first)
  {}

  lemma PartNext(f: Tables, rows: seq<Row>, rows': seq<Row>, rows'': seq<Row>, pivots: seq<nat>, k: nat, n: nat,
                 first: nat, limit: nat)
    requires PartCleared(f, rows, rows', pivots, k, n, first, limit) && limit < |pivots| && pivots[limit] < |rows'|
    requires pivots[k] < |rows'| && |rows'[pivots[limit]]| == |rows'[pivots[k]]| == n
    requires rows'' == rows'[pivots[limit] := Eliminate(f, rows'[pivots[limit]], rows'[pivots[k]], k)]
    ensures PartCleared(f, rows, rows'', pivots, k, n, first, limit + 1)
  {
    hide Eliminate;
    PartShape(f, rows, rows', pivots, k, n, first, limit);
  }

  lemma PartShape(f: Tables, rows: seq<Row>, rows': seq<Row>, pivots: seq<nat>, k: nat, n: nat, first: nat, limit: nat)
    requires PartCleared(f, rows, rows', pivots, k, n, first, limit)
    ensures Rectangular(rows', n)
    ensures forall i :: limit <= i < |pivots| ==> rows'[pivots[i]] == rows[pivots[i]]
    ensures rows'[pivots[k]] == rows[pivots[k]]
  {
    hide Eliminate;
    forall r | 0 <= r < |rows'| ensures |rows'[r]| == n {
      if r in pivots {
        var i :| 0 <= i < |pivots| && pivots[i] == r;
      }
    }
  }

  /** Rows passed over in the search for a pivot have a zero there and need no elimination. */
  lemma PartAll(f: Tables, rows: seq<Row>, rows': seq<Row>, pivots: seq<nat>, k: nat, n: nat, first: nat)
    requires IsField(f) && PartCleared(f, rows, rows', pivots, k, n, first, |pivots|)
    requires rows[pivots[k]][k] != ZERO
    requires forall i :: k < i < first ==> rows[pivots[i]][k] == ZERO
    ensures ColumnCleared(f, rows, rows', pivots, k, n)
  {
    hide Eliminate, IsField;
    forall i | k < i < first ensures Eliminate(f, rows[pivots[i]], rows[pivots[k]], k) == rows[pivots[i]] {
      EliminateNone(f, rows[pivots[i]], rows[pivots[k]], k);
    }
  }

  /** Column k under way: pivot row k has a non-zero there, the rows passed over have zeros, and the
      rows at positions first..limit-1 are cleared. */
  ghost predicate Clearing(f: Tables, rows: seq<Row>, rows': seq<Row>, pivots: seq<nat>, k: nat, n: nat, first: nat,
                           limit: nat) {
    && PartCleared(f, rows, rows', pivots, k, n, first, limit)
    && rows[pivots[k]][k] != ZERO && forall i :: k < i < first ==> rows[pivots[i]][k] == ZERO
  }

  lemma ClearingAt(f: Tables, rows: seq<Row>, rows': seq<Row>, pivots: seq<nat>, k: nat, n: nat, first: nat, limit: nat)
    requires Clearing(f, rows, rows', pivots, k, n, first, limit)
    ensures Rectangular(rows', n) && k < first <= limit <= |pivots| && Distinct(pivots) && |rows'| == |rows|
    ensures forall i :: 0 <= i < |pivots| ==> pivots[i] < |rows'|
    ensures forall i :: limit <= i < |pivots| ==> rows'[pivots[i]] == rows[pivots[i]]
    ensures k < n && rows'[pivots[k]] == rows[pivots[k]] && rows[pivots[k]][k] != ZERO
    ensures limit < |pivots| ==> pivots[limit] != pivots[k]
  {
    hide Eliminate;
    PartShape(f, rows, rows', pivots, k, n, first, limit);
  }

  /** One more row: eliminated, or left alone because it has a zero in column k. */
  lemma ClearingNext(f: Tables, rows: seq<Row>, rows': seq<Row>, rows'': seq<Row>, pivots: seq<nat>, k: nat, n: nat,
                     first: nat, limit: nat)
    requires IsField(f) && Clearing(f, rows, rows', pivots, k, n, first, limit) && limit < |pivots|
    requires RowCleared(f, rows', rows'', pivots[limit], pivots[k], k) ||
             (rows'' == rows' && pivots[limit] < |rows'| && k < |rows'[pivots[limit]]|
              && rows'[pivots[limit]][k] == ZERO)
    ensures Clearing(f, rows, rows'', pivots, k, n, first, limit + 1)
  {
    hide IsField, Eliminate, Rectangular, PartCleared;
    ClearingAt(f, rows, rows', pivots, k, n, first, limit);
    RectangularAt(rows', n, pivots[limit], pivots[k]);
    if rows'[pivots[limit]][k] == ZERO {
      EliminateNone(f, rows'[pivots[limit]], rows'[pivots[k]], k);
    }
    assert rows' == rows'[pivots[limit] := rows'[pivots[limit]]];
    PartNext(f, rows, rows', rows'', pivots, k, n, first, limit);
  }

  lemma RectangularAt(rows: seq<Row>, n: nat, r: nat, r': nat)
    requires Rectangular(rows, n) && r < |rows| && r' < |rows|
    ensures |rows[r]| == n && |rows[r']| == n
  {}

  lemma ClearingBegins(f: Tables, rows: seq<Row>, pivots: seq<nat>, k: nat, n: nat, first: nat)
    requires Rectangular(rows, n) && k < n && k < first <= |pivots| && Distinct(pivots)
    requires forall i :: 0 <= i < |pivots| ==> pivots[i] < |rows|
    requires rows[pivots[k]][k] != ZERO && forall i :: k < i < first ==> rows[pivots[i]][k] == ZERO
    ensures Clearing(f, rows, rows, pivots, k, n, first, first)
  {}

  /** A cleared column extends the factorisation. */
  lemma ClearingEnds(f: Tables, a: seq<Row>, rows: seq<Row>, rows': seq<Row>, pivots0: seq<nat>, pivots: seq<nat>,
                     k: nat, n: nat, first: nat)
    requires IsField(f) && Factored(f, a, rows, pivots0, k, n) && Reordered(pivots0, pivots, k)
    requires Clearing(f, rows, rows', pivots, k, n, first, |pivots|)
    ensures Factored(f, a, rows', pivots, k + 1, n)
  {
    hide IsField, Eliminate, RowFactored;
    ReorderKeeps(f, a, rows, pivots0, pivots, k, n);
    PartAll(f, rows, rows', pivots, k, n, first);
    ClearKeeps(f, a, rows, rows', pivots, k, n);
  }

  lemma FactoredShape(f: Tables, a: seq<Row>, rows: seq<Row>, pivots: seq<nat>, k: nat, n: nat)
    requires Factored(f, a, rows, pivots, k, n)
    ensures |a| == |rows| && Rectangular(rows, n) && Distinct(pivots) && k <= |pivots| && k <= n
    ensures forall i :: 0 <= i < |pivots| ==> pivots[i] < |rows|
  {}

  /** From position k on, binary rows come before position fhp and heavy rows after it. */
  ghost predicate Roles(pivots: seq<nat>, k: nat, fhp: nat, light: nat, extra: nat) {
    && k <= |pivots| && fhp <= |pivots|
    && (forall i :: k <= i < fhp ==> pivots[i] < light)
    && (forall i :: k <= i < |pivots| && fhp <= i ==> light + extra <= pivots[i] < light + extra + CAT_HEAVY_ROWS)
  }

  /** Taking the heavy row at position j as pivot k, and closing the hole it leaves among the heavy rows. */
  function TakeHeavy(pivots: seq<nat>, k: nat, fhp: nat, j: nat): (r: seq<nat>)
    requires k <= j < |pivots| && fhp <= j
  {
    if k < fhp then Swap(Swap(pivots, k, j), fhp, j) else Swap(pivots, k, j)
  }

  lemma TakeHeavyKeeps(pivots: seq<nat>, k: nat, fhp: nat, j: nat, light: nat, extra: nat)
    requires Distinct(pivots) && Roles(pivots, k, fhp, light, extra) && k <= j < |pivots| && fhp <= j
    ensures var p := TakeHeavy(pivots, k, fhp, j);
            && Reordered(pivots, p, k) && p[k] == pivots[j]
            && Roles(p, k + 1, if k < fhp then fhp + 1 else fhp, light, extra)
            && (forall i :: k < i <= j ==> exists t :: k <= t < j && p[i] == pivots[t])
            && forall i :: j < i < |p| ==> p[i] == pivots[i]
  {
    SwapReorders(pivots, k, k, j);
    var p1, p := Swap(pivots, k, j), TakeHeavy(pivots, k, fhp, j);
    if k < fhp {
      SwapReorders(p1, k, fhp, j);
      ReorderTwice(pivots, p1, p, k);
    }
    forall i | k < i <= j ensures exists t :: k <= t < j && p[i] == pivots[t] {
      if k < fhp {
        var t := if i == fhp then k else if i == j then fhp else i;
        assert p[i] == pivots[t];
      } else {
        assert p[i] == pivots[if i == j then k else i];
      }
    }
  }

  /** No row at positions k..limit-1 has a non-zero in column k. */
  ghost predicate NoPivot(rows: seq<Row>, pivots: seq<nat>, k: nat, limit: nat) {
    limit <= |pivots| && forall i :: k <= i < limit ==>
      pivots[i] < |rows| && k < |rows[pivots[i]]| && rows[pivots[i]][k] == ZERO
  }

  lemma HeavyTaken(f: Tables, rows: seq<Row>, pivots: seq<nat>, k: nat, fhp: nat, j: nat, n: nat, light: nat,
                   extra: nat)
    requires Rectangular(rows, n) && k < n && Distinct(pivots) && forall i :: 0 <= i < |pivots| ==> pivots[i] < |rows|
    requires Roles(pivots, k, fhp, light, extra) && k <= j < |pivots| && fhp <= j
    requires NoPivot(rows, pivots, k, j) && rows[pivots[j]][k] != ZERO
    ensures var p := TakeHeavy(pivots, k, fhp, j);
            && Reordered(pivots, p, k) && Roles(p, k + 1, if k < fhp then fhp + 1 else fhp, light, extra)
            && Clearing(f, rows, rows, p, k, n, j + 1, j + 1)
            && |p| == |pivots| && p[k] == pivots[j]
            && forall i :: j < i < |p| ==> light + extra <= p[i] < light + extra + CAT_HEAVY_ROWS
  {
    hide TakeHeavy, Clearing, Reordered;
    TakeHeavyKeeps(pivots, k, fhp, j, light, extra);
    var p := TakeHeavy(pivots, k, fhp, j);
    ReorderedAll(pivots, p, k, |rows|);
    forall i | k < i < j + 1 ensures rows[p[i]][k] == ZERO {
      var t :| k <= t < j && p[i] == pivots[t];
    }
    ClearingBegins(f, rows, p, k, n, j + 1);
  }

  function HeavyIds(first: nat, count: nat): (ids: seq<nat>)
    ensures |ids| == count && forall i :: 0 <= i < count ==> ids[i] == first + i
  {
    if count == 0 then [] else HeavyIds(first, count - 1) + [first + count - 1]
  }

  /** The list holds exactly the binary rows and the heavy rows. */
  ghost predicate AllListed(pivots: seq<nat>, light: nat, extra: nat) {
    && |pivots| == light + CAT_HEAVY_ROWS
    && forall x: nat :: x in pivots <==> x < light || light + extra <= x < light + extra + CAT_HEAVY_ROWS
  }

  /** Before the first heavy column only binary rows are listed, and no heavy row has been touched. */
  ghost predicate LightOnly(a: seq<Row>, rows: seq<Row>, pivots: seq<nat>, light: nat) {
    && |pivots| == light && |a| == |rows| && (forall x: nat :: x in pivots <==> x < light)
    && forall r :: light <= r < |rows| ==> rows[r] == a[r]
  }

  lemma HeavyJoin(f: Tables, a: seq<Row>, rows: seq<Row>, pivots: seq<nat>, k: nat, n: nat, light: nat, extra: nat)
    requires IsField(f) && Factored(f, a, rows, pivots, k, n) && LightOnly(a, rows, pivots, light)
    requires |rows| == light + extra + CAT_HEAVY_ROWS && Unlisted(a, pivots, k) && k <= light
    ensures var p := pivots + HeavyIds(light + extra, CAT_HEAVY_ROWS);
            Factored(f, a, rows, p, k, n) && Roles(p, k, light, light, extra) && AllListed(p, light, extra)
  {
    hide IsField, RowFactored, Factored, Roles, AllListed;
    FactoredDistinct(f, a, rows, pivots, k, n);
    HeavyListed(a, rows, pivots, k, light, extra);
    HeavyUntouched(a, rows, pivots, k, light, extra);
    JoinKeeps(f, a, rows, pivots, HeavyIds(light + extra, CAT_HEAVY_ROWS), k, n);
  }

  lemma FactoredDistinct(f: Tables, a: seq<Row>, rows: seq<Row>, pivots: seq<nat>, k: nat, n: nat)
    requires Factored(f, a, rows, pivots, k, n)
    ensures Distinct(pivots) && forall r :: 0 <= r < |rows| ==> k <= |rows[r]|
  {
    hide RowFactored;
  }

  lemma HeavyListed(a: seq<Row>, rows: seq<Row>, pivots: seq<nat>, k: nat, light: nat, extra: nat)
    requires LightOnly(a, rows, pivots, light) && Distinct(pivots) && k <= light
    ensures var p := pivots + HeavyIds(light + extra, CAT_HEAVY_ROWS);
            Distinct(p) && Roles(p, k, light, light, extra) && AllListed(p, light, extra)
  {
    var p := pivots + HeavyIds(light + extra, CAT_HEAVY_ROWS);
    ListedLight(a, rows, pivots, light);
    forall i, j | 0 <= i < j < |p| ensures p[i] != p[j] {}
    forall x | light + extra <= x < light + extra + CAT_HEAVY_ROWS ensures x in p {
      assert p[light + (x - light - extra)] == x;
    }
  }

  lemma HeavyUntouched(a: seq<Row>, rows: seq<Row>, pivots: seq<nat>, k: nat, light: nat, extra: nat)
    requires LightOnly(a, rows, pivots, light) && Unlisted(a, pivots, k) && |rows| == light + extra + CAT_HEAVY_ROWS
    requires forall r :: 0 <= r < |rows| ==> k <= |rows[r]|
    ensures var more := HeavyIds(light + extra, CAT_HEAVY_ROWS);
            (forall i :: 0 <= i < |more| ==> more[i] < |rows| && rows[more[i]] == a[more[i]])
            && forall i, j :: 0 <= i < |more| && 0 <= j < k ==> rows[more[i]][j] == ZERO
  {
    var more := HeavyIds(light + extra, CAT_HEAVY_ROWS);
    forall i | 0 <= i < |more| ensures more[i] !in pivots {}
  }

  lemma ListedLight(a: seq<Row>, rows: seq<Row>, pivots: seq<nat>, light: nat)
    requires LightOnly(a, rows, pivots, light)
    ensures forall i :: 0 <= i < |pivots| ==> pivots[i] < light
  {
    forall i | 0 <= i < |pivots| ensures pivots[i] < light {
      assert pivots[i] in pivots;
    }
  }

  lemma UnlistedStart(a: seq<Row>, rows: seq<Row>, pivots: seq<nat>, light: nat, limit: nat, n: nat)
    requires LightOnly(a, rows, pivots, light) && Rectangular(a, n) && limit <= n
    requires forall r :: light <= r < |a| ==> forall j :: 0 <= j < limit ==> a[r][j] == ZERO
    ensures Unlisted(a, pivots, limit)
  {}

  lemma UnlistedAll(a: seq<Row>, pivots: seq<nat>, light: nat, extra: nat, n: nat)
    requires AllListed(pivots, light, extra) && Rectangular(a, n) && |a| == light + extra + CAT_HEAVY_ROWS
    requires forall r :: light <= r < light + extra ==> forall j :: 0 <= j < n ==> a[r][j] == ZERO
    ensures Unlisted(a, pivots, n)
  {}

  lemma RolesStep(pivots: seq<nat>, pivots': seq<nat>, k: nat, fhp: nat, light: nat, extra: nat)
    requires Roles(pivots, k, fhp, light, extra) && k < fhp && |pivots'| == |pivots|
    requires forall i :: k <= i < fhp ==> pivots'[i] < light
    requires forall i :: fhp <= i < |pivots| ==> pivots'[i] == pivots[i]
    ensures Roles(pivots', k + 1, fhp, light, extra)
  {}

  lemma ListKept(pivots: seq<nat>, pivots': seq<nat>, k: nat, light: nat, extra: nat)
    requires Reordered(pivots, pivots', k)
    ensures forall i :: 0 <= i < k ==> i < |pivots| && pivots'[i] == pivots[i]
    ensures AllListed(pivots, light, extra) ==> AllListed(pivots', light, extra)
    ensures (forall x: nat :: x in pivots <==> x < light) ==> forall x: nat :: x in pivots' <==> x < light
  {}

  lemma UntouchedRows(f: Tables, a: seq<Row>, rows: seq<Row>, rows': seq<Row>, pivots: seq<nat>, pivots': seq<nat>,
                      k: nat, n: nat, first: nat, light: nat)
    requires LightOnly(a, rows, pivots, light) && Reordered(pivots, pivots', k)
    requires Clearing(f, rows, rows', pivots', k, n, first, |pivots'|)
    ensures LightOnly(a, rows', pivots', light)
  {
    hide Eliminate;
  }

  /** Some vector that is one in a column, so is not zero, is annihilated by every row: the matrix is singular. */
  ghost predicate Singular(f: Tables, a: seq<Row>, n: nat)
    requires Rectangular(a, n)
  {
    exists k, xs: seq<Block> :: 0 <= k < n && |xs| == n && xs[k] == Ones() && Annihilates(f, a, n, xs)
  }

  /** Rows of a that are not listed have nothing before column limit. */
  ghost predicate Unlisted(a: seq<Row>, pivots: seq<nat>, limit: nat) {
    forall r :: 0 <= r < |a| && r !in pivots ==> limit <= |a[r]| && forall j :: 0 <= j < limit ==> a[r][j] == ZERO
  }

  lemma StuckSingular(f: Tables, a: seq<Row>, rows: seq<Row>, pivots: seq<nat>, k: nat, n: nat, limit: nat)
    requires IsField(f) && Factored(f, a, rows, pivots, k, n) && Rectangular(a, n) && k < n
    requires NoPivot(rows, pivots, k, |pivots|) && Unlisted(a, pivots, limit) && k < limit
    ensures Singular(f, a, n)
  {
    hide IsField, RowFactored, KernelVec, Annihilates;
    NoPivotSingular(f, a, rows, pivots, k, n);
    var xs := KernelVec(f, PivotRows(rows, pivots)[..k], n, 0);
    assert xs[k] == Ones() && Annihilates(f, a, n, xs);
  }

  lemma ReorderedAll(p: seq<nat>, p': seq<nat>, k: nat, n: nat)
    requires Reordered(p, p', k) && forall i :: 0 <= i < |p| ==> p[i] < n
    ensures Distinct(p') && |p'| == |p| && forall i :: 0 <= i < |p'| ==> p'[i] < n
  {
    forall i | 0 <= i < |p'| ensures p'[i] < n {
      assert p'[i] in p';
    }
  }

  lemma UnlistedKept(a: seq<Row>, pivots: seq<nat>, pivots': seq<nat>, limit: nat, k: nat)
    requires Unlisted(a, pivots, limit) && Reordered(pivots, pivots', k)
    ensures Unlisted(a, pivots', limit)
  {}

  lemma FullSet(ge: seq<Bits>, heavy: seq<Row>, fhc: nat, r: nat, row: Bits)
    requires r < |ge|
    ensures FullRows(ge[r := row], heavy, fhc) == FullRows(ge, heavy, fhc)[r := Lift(row)]
  {}

  lemma FullSetHeavy(ge: seq<Bits>, heavy: seq<Row>, fhc: nat, h: nat, row: Row)
    requires h < |heavy|
    ensures FullRows(ge, heavy[h := row], fhc) == FullRows(ge, heavy, fhc)[|ge| + h := ZeroRow(fhc) + row]
  {}

  /** Row src has been eliminated from row dest in column k. */
  ghost predicate RowCleared(f: Tables, rows: seq<Row>, rows': seq<Row>, dest: nat, src: nat, k: nat) {
    && dest < |rows| && src < |rows| && k < |rows[dest]| == |rows[src]|
    && rows' == rows[dest := Eliminate(f, rows[dest], rows[src], k)]
  }

  class Eliminator {
    const comp: Compressor
    const f: Tables
    const df: nat               // _defer_count
    const extra: nat            // _extra_count
    var heavy: seq<Row>         // _heavy_matrix, heavy columns only
    var heavyColumns: nat
    var firstHeavyColumn: nat
    var pivots: seq<nat>        // _pivots, the first _pivot_count entries
    var nextPivot: nat
    var firstHeavyPivot: nat

    constructor (comp: Compressor, f: Tables, df: nat, extra: nat)
      ensures this.comp == comp && this.f == f && this.df == df && this.extra == extra
    {
      this.comp, this.f, this.df, this.extra := comp, f, df, extra;
      heavy, pivots := [], [];
      heavyColumns, firstHeavyColumn, nextPivot, firstHeavyPivot := 0, 0, 0, 0;
    }

    function Width(): nat { df + comp.pr.M() }

    function Light(): nat { df + comp.pr.d }

    ghost function Rows(): seq<Row>
      reads this, comp`ge
    {
      FullRows(comp.ge, heavy, firstHeavyColumn)
    }

    ghost predicate Shaped()
      reads this, comp`ge
    {
      && |comp.ge| == Light() && (forall r :: 0 <= r < |comp.ge| ==> |comp.ge[r]| == Width())
      && |heavy| == extra + CAT_HEAVY_ROWS && firstHeavyColumn + heavyColumns == Width()
      && (forall h :: 0 <= h < |heavy| ==> |heavy[h]| == heavyColumns)
    }

    lemma ShapedRows()
      requires Shaped()
      ensures Rectangular(Rows(), Width())
    {}

    /** Eliminates binary row src from binary row dest in column k. */
    method AddPivotRow(dest: nat, src: nat, k: nat)
      requires IsField(f) && Shaped() && dest < |comp.ge| && src < |comp.ge| && k < Width()
      requires comp.ge[dest][k] && comp.ge[src][k]
      modifies comp`ge
      ensures Shaped() && RowCleared(f, old(Rows()), Rows(), dest, src, k)
      ensures forall r :: 0 <= r < |comp.ge| && r != dest ==> comp.ge[r] == old(comp.ge)[r]
    {
      hide IsField, EliminateBits, Eliminate, Lift;
      EliminateLifted(f, comp.ge[dest], comp.ge[src], k);
      FullSet(comp.ge, heavy, firstHeavyColumn, dest, EliminateBits(comp.ge[dest], comp.ge[src], k));
      comp.ge := comp.ge[dest := EliminateBits(comp.ge[dest], comp.ge[src], k)];
    }

    /** Eliminates binary row src from heavy row h in column k. */
    method AddLightToHeavy(h: nat, src: nat, k: nat)
      requires IsField(f) && Shaped() && h < |heavy| && src < |comp.ge| && firstHeavyColumn <= k < Width()
      requires comp.ge[src][k]
      modifies this`heavy
      ensures Shaped() && RowCleared(f, old(Rows()), Rows(), Light() + h, src, k)
    {
      hide IsField, Xor, Eliminate, FullRows;
      ghost var h0, u := heavy[h], comp.ge[src];
      var code := heavy[h][k - firstHeavyColumn];
      var row := AddBinaryRow(heavy[h], comp.ge[src], k, firstHeavyColumn, code);
      assert row == AddBits(h0, u, k, firstHeavyColumn, code);
      AddBitsEliminates(f, h0, u, k, firstHeavyColumn);
      FullAt(comp.ge, heavy, firstHeavyColumn, src, h);
      FullSetHeavy(comp.ge, heavy, firstHeavyColumn, h, row);
      heavy := heavy[h := row];
    }

    /** Eliminates heavy row hs from heavy row h in column k, leaving the quotient behind. */
    method AddHeavyToHeavy(h: nat, hs: nat, k: nat)
      requires Shaped() && h < |heavy| && hs < |heavy| && firstHeavyColumn <= k < Width()
      modifies this`heavy
      ensures Shaped() && RowCleared(f, old(Rows()), Rows(), Light() + h, Light() + hs, k)
    {
      hide Xor, FullRows, Eliminate;
      var c := k - firstHeavyColumn;
      HeavyEliminates(f, heavy[h], heavy[hs], k, firstHeavyColumn);
      FullAt(comp.ge, heavy, firstHeavyColumn, 0, h);
      FullAt(comp.ge, heavy, firstHeavyColumn, 0, hs);
      var row := Eliminate(f, heavy[h], heavy[hs], c);
      FullSetHeavy(comp.ge, heavy, firstHeavyColumn, h, row);
      heavy := heavy[h := row];
    }

    /** Looks for a binary pivot for column k among positions k..limit-1 and eliminates it from the ones after it. */
    method LightColumn(k: nat, limit: nat) returns (found: bool, ghost first: nat)
      requires IsField(f) && Shaped() && k < Width() && k <= limit <= |pivots| && Distinct(pivots)
      requires forall i :: 0 <= i < |pivots| ==> pivots[i] < |Rows()|
      requires forall i :: k <= i < limit ==> pivots[i] < Light()
      modifies comp`ge, this`pivots
      ensures Shaped() && |pivots| == old(|pivots|)
      ensures !found ==> pivots == old(pivots) && comp.ge == old(comp.ge)
      ensures !found ==> forall i :: k <= i < limit ==> pivots[i] < |comp.ge| && !comp.ge[pivots[i]][k]
      ensures found ==> k < limit && Clearing(f, old(Rows()), Rows(), pivots, k, Width(), first, limit)
      ensures found ==> Reordered(old(pivots), pivots, k) && pivots[k] < Light() && comp.ge[pivots[k]][k]
      ensures found ==> forall i :: limit <= i < |pivots| ==> pivots[i] == old(pivots)[i]
      ensures found ==> forall i :: k <= i < limit ==> pivots[i] < Light()
    {
      hide IsField, Eliminate, FullRows, RowCleared, Clearing, Rectangular;
      found := false;
      first := k;
      for j := k to limit
        invariant forall i :: k <= i < j ==> pivots[i] < |comp.ge| && !comp.ge[pivots[i]][k]
        invariant pivots == old(pivots) && comp.ge == old(comp.ge)
      {
        var row := pivots[j];
        if comp.ge[row][k] {
          found, first := true, j + 1;
          SwapReorders(pivots, k, k, j);
          pivots := pivots[j := pivots[k]][k := row];
          BitRows(k);
          ShapedRows();
          ClearingBegins(f, Rows(), pivots, k, Width(), j + 1);
          ClearLight(k, j + 1, limit);
          return;
        }
      }
    }

    /** Eliminates binary pivot row k from the binary rows at positions first..limit-1. */
    method ClearLight(k: nat, first: nat, limit: nat)
      requires IsField(f) && Shaped() && k < first <= limit <= |pivots| && k < Width()
      requires forall i :: k <= i < limit ==> pivots[i] < Light()
      requires comp.ge[pivots[k]][k] && Clearing(f, Rows(), Rows(), pivots, k, Width(), first, first)
      modifies comp`ge
      ensures Shaped() && Clearing(f, old(Rows()), Rows(), pivots, k, Width(), first, limit) && comp.ge[pivots[k]][k]
    {
      hide IsField, Eliminate, FullRows, RowCleared, Clearing;
      for t := first to limit
        invariant Shaped() && comp.ge[pivots[k]][k]
        invariant Clearing(f, old(Rows()), Rows(), pivots, k, Width(), first, t)
        modifies comp`ge
      {
        ghost var rows := Rows();
        ClearingAt(f, old(Rows()), rows, pivots, k, Width(), first, t);
        BitRows(k);
        if comp.ge[pivots[t]][k] {
          AddPivotRow(pivots[t], pivots[k], k);
        }
        ClearingNext(f, old(Rows()), rows, Rows(), pivots, k, Width(), first, t);
      }
    }

    /** Eliminates binary pivot row k from the heavy rows at positions limit and after. */
    method ClearHeavy(k: nat, limit: nat, ghost rows0: seq<Row>, ghost first: nat)
      requires IsField(f) && Shaped() && k < limit <= |pivots| && firstHeavyColumn <= k < Width()
      requires pivots[k] < Light() && comp.ge[pivots[k]][k]
      requires forall i :: limit <= i < |pivots| ==> Light() <= pivots[i] < Light() + |heavy|
      requires Clearing(f, rows0, Rows(), pivots, k, Width(), first, limit)
      modifies this`heavy
      ensures Shaped() && Clearing(f, rows0, Rows(), pivots, k, Width(), first, |pivots|)
    {
      hide IsField, Eliminate, FullRows, RowCleared, Clearing;
      for t := limit to |pivots|
        invariant Shaped() && Clearing(f, rows0, Rows(), pivots, k, Width(), first, t)
      {
        ghost var rows := Rows();
        ClearingAt(f, rows0, rows, pivots, k, Width(), first, t);
        var h := pivots[t] - Light();
        FullAt(comp.ge, heavy, firstHeavyColumn, 0, h);
        if heavy[h][k - firstHeavyColumn] != ZERO {
          AddLightToHeavy(h, pivots[k], k);
        }
        ClearingNext(f, rows0, rows, Rows(), pivots, k, Width(), first, t);
      }
    }

    /** The first position at start or after whose heavy row has column k. */
    method FindHeavy(k: nat, start: nat) returns (j: nat)
      requires Shaped() && firstHeavyColumn <= k < Width() && k <= start <= |pivots|
      requires forall i :: start <= i < |pivots| ==> Light() <= pivots[i] < Light() + |heavy|
      requires forall i :: k <= i < start ==> pivots[i] < |comp.ge| && !comp.ge[pivots[i]][k]
      ensures start <= j <= |pivots| && NoPivot(Rows(), pivots, k, j)
      ensures j < |pivots| ==> pivots[j] < |Rows()| && |Rows()[pivots[j]]| == Width() && Rows()[pivots[j]][k] != ZERO
    {
      hide FullRows;
      BitRows(k);
      for i := start to |pivots|
        invariant NoPivot(Rows(), pivots, k, i)
      {
        var h := pivots[i] - Light();
        FullAt(comp.ge, heavy, firstHeavyColumn, 0, h);
        if heavy[h][k - firstHeavyColumn] != ZERO {
          return i;
        }
      }
      return |pivots|;
    }

    /** Takes a heavy pivot for column k, once no binary row has it, and eliminates it from the rows after it. */
    method HeavyColumn(k: nat, start: nat) returns (found: bool, ghost first: nat)
      requires IsField(f) && Shaped() && firstHeavyColumn <= k < Width() && Distinct(pivots) && k < |pivots|
      requires Roles(pivots, k, firstHeavyPivot, Light(), extra)
      requires start == (if k < firstHeavyPivot then firstHeavyPivot else k)
      requires forall i :: 0 <= i < |pivots| ==> pivots[i] < |Rows()|
      requires forall i :: k <= i < start ==> pivots[i] < |comp.ge| && !comp.ge[pivots[i]][k]
      modifies this`heavy, this`pivots, this`firstHeavyPivot
      ensures Shaped()
      ensures !found ==> NoPivot(Rows(), pivots, k, |pivots|) && Rows() == old(Rows()) && pivots == old(pivots)
      ensures found ==> Clearing(f, old(Rows()), Rows(), pivots, k, Width(), first, |pivots|)
      ensures found ==> Reordered(old(pivots), pivots, k) && Roles(pivots, k + 1, firstHeavyPivot, Light(), extra)
    {
      hide IsField, Eliminate, FullRows, Clearing, Reordered, TakeHeavy, NoPivot;
      var j := FindHeavy(k, start);
      found, first := j < |pivots|, j + 1;
      if found {
        var h := pivots[j] - Light();
        ShapedRows();
        HeavyTaken(f, Rows(), pivots, k, firstHeavyPivot, j, Width(), Light(), extra);
        pivots := TakeHeavy(pivots, k, firstHeavyPivot, j);
        if k < firstHeavyPivot {
          firstHeavyPivot := firstHeavyPivot + 1;
        }
        EliminateHeavy(k, j + 1, h);
      }
    }

    /** Eliminates the heavy pivot row of column k from the rows after it that have that column. */
    method EliminateHeavy(k: nat, first: nat, hs: nat)
      requires IsField(f) && Shaped() && firstHeavyColumn <= k < first <= |pivots| && k < Width()
      requires hs < |heavy| && pivots[k] == Light() + hs
      requires forall i :: first <= i < |pivots| ==> Light() <= pivots[i] < Light() + |heavy|
      requires Clearing(f, Rows(), Rows(), pivots, k, Width(), first, first)
      modifies this`heavy
      ensures Shaped() && Clearing(f, old(Rows()), Rows(), pivots, k, Width(), first, |pivots|)
    {
      hide IsField, Eliminate, FullRows, RowCleared, Clearing;
      for t := first to |pivots|
        invariant Shaped() && Clearing(f, old(Rows()), Rows(), pivots, k, Width(), first, t)
      {
        ghost var rows := Rows();
        ClearingAt(f, old(Rows()), rows, pivots, k, Width(), first, t);
        var h := pivots[t] - Light();
        FullAt(comp.ge, heavy, firstHeavyColumn, 0, h);
        if heavy[h][k - firstHeavyColumn] != ZERO {
          AddHeavyToHeavy(h, hs, k);
        }
        ClearingNext(f, old(Rows()), rows, Rows(), pivots, k, Width(), first, t);
      }
    }

    /** Adds the heavy rows after the binary ones. Rows past the first N, which would be converted here, are never
        listed. */
    method InsertHeavyRows()
      requires |pivots| == Light()
      modifies this`pivots, this`firstHeavyPivot
      ensures pivots == old(pivots) + HeavyIds(Light() + extra, CAT_HEAVY_ROWS) && firstHeavyPivot == Light()
    {
      firstHeavyPivot := |pivots|;
      for h := 0 to CAT_HEAVY_ROWS
        invariant pivots == old(pivots) + HeavyIds(Light() + extra, h)
        modifies this`pivots
      {
        pivots := pivots + [Light() + extra + h];
      }
    }

    /** The binary rows in order, and the heavy rows at once if every column is heavy. */
    method SetupTriangle(ghost a: seq<Row>)
      requires IsField(f) && Shaped() && a == Rows() && |comp.ge| == Light()
      modifies this`pivots, this`nextPivot, this`firstHeavyPivot
      ensures nextPivot == 0 && Factored(f, a, Rows(), pivots, 0, Width())
      ensures firstHeavyColumn > 0 ==> LightOnly(a, Rows(), pivots, Light())
      ensures firstHeavyColumn == 0 ==>
                Roles(pivots, 0, firstHeavyPivot, Light(), extra) && AllListed(pivots, Light(), extra)
    {
      hide IsField, FullRows, Factored;
      pivots := HeavyIds(0, Light());
      nextPivot, firstHeavyPivot := 0, 0;
      ShapedRows();
      FactoredStart(f, a, pivots, Width());
      assert LightOnly(a, Rows(), pivots, Light()) by {
        forall x | 0 <= x < Light() ensures x in pivots {
          assert pivots[x] == x;
        }
      }
      if firstHeavyColumn <= 0 {
        HeavyJoin(f, a, Rows(), pivots, 0, Width(), Light(), extra);
        InsertHeavyRows();
      }
    }

    /** The columns no heavy row reaches. */
    method TriangleNonHeavy(ghost a: seq<Row>) returns (ok: bool)
      requires IsField(f) && Shaped() && nextPivot <= firstHeavyColumn <= Light() && Rectangular(a, Width())
      requires Factored(f, a, Rows(), pivots, nextPivot, Width())
      requires LightOnly(a, Rows(), pivots, Light()) && Unlisted(a, pivots, firstHeavyColumn)
      modifies comp`ge, this`pivots, this`nextPivot, this`firstHeavyPivot
      ensures !ok ==> Singular(f, a, Width())
      ensures ok ==> Shaped() && nextPivot == firstHeavyColumn && Factored(f, a, Rows(), pivots, nextPivot, Width())
      ensures ok ==> Roles(pivots, nextPivot, firstHeavyPivot, Light(), extra) && AllListed(pivots, Light(), extra)
      ensures ok ==> forall i :: 0 <= i < firstHeavyColumn ==> pivots[i] < Light()
    {
      hide IsField, FullRows, Factored, Clearing, Reordered, Unlisted, Singular, Annihilates, Rectangular;
      var k := nextPivot;
      while k < firstHeavyColumn
        invariant nextPivot <= k <= firstHeavyColumn && Shaped()
        invariant Factored(f, a, Rows(), pivots, k, Width())
        invariant LightOnly(a, Rows(), pivots, Light()) && Unlisted(a, pivots, firstHeavyColumn)
        modifies comp`ge, this`pivots, this`nextPivot
      {
        ghost var rows, before := Rows(), pivots;
        FactoredShape(f, a, rows, pivots, k, Width());
        ListedLight(a, rows, pivots, Light());
        var found, first := LightColumn(k, |pivots|);
        if !found {
          BitRows(k);
          StuckSingular(f, a, Rows(), pivots, k, Width(), firstHeavyColumn);
          nextPivot := k;
          return false;
        }
        ClearingEnds(f, a, rows, Rows(), before, pivots, k, Width(), first);
        UntouchedRows(f, a, rows, Rows(), before, pivots, k, Width(), first, Light());
        UnlistedKept(a, before, pivots, firstHeavyColumn, k);
        k := k + 1;
      }
      nextPivot := k;
      ListedLight(a, Rows(), pivots, Light());
      HeavyJoin(f, a, Rows(), pivots, k, Width(), Light(), extra);
      InsertHeavyRows();
      return true;
    }

    /** Puts the matrix in triangular form, keeping its multipliers, unless it is singular. */
    method Triangle(ghost a: seq<Row>) returns (ok: bool)
      requires IsField(f) && Shaped() && firstHeavyColumn <= Light() && Rectangular(a, Width())
      requires nextPivot == 0 && Factored(f, a, Rows(), pivots, 0, Width())
      requires firstHeavyColumn > 0 ==> LightOnly(a, Rows(), pivots, Light())
      requires firstHeavyColumn == 0 ==>
                 Roles(pivots, 0, firstHeavyPivot, Light(), extra) && AllListed(pivots, Light(), extra)
      requires forall r :: Light() <= r < |a| ==> forall j :: 0 <= j < firstHeavyColumn ==> a[r][j] == ZERO
      requires forall r :: Light() <= r < Light() + extra && r < |a| ==> forall j :: 0 <= j < Width() ==>
                 a[r][j] == ZERO
      modifies comp`ge, this`heavy, this`pivots, this`nextPivot, this`firstHeavyPivot
      ensures !ok ==> Singular(f, a, Width())
      ensures ok ==> Shaped() && Factored(f, a, Rows(), pivots, Width(), Width()) && AllListed(pivots, Light(), extra)
      ensures ok ==> forall i :: 0 <= i < firstHeavyColumn ==> pivots[i] < Light()
    {
      hide IsField, FullRows, Factored, Clearing, Reordered, Unlisted, Singular, Annihilates, Rectangular;
      FactoredShape(f, a, Rows(), pivots, 0, Width());
      if nextPivot < firstHeavyColumn {
        UnlistedStart(a, Rows(), pivots, Light(), firstHeavyColumn, Width());
        var light := TriangleNonHeavy(a);
        if !light {
          return false;
        }
      }
      var k := nextPivot;
      UnlistedAll(a, pivots, Light(), extra, Width());
      while k < Width()
        invariant firstHeavyColumn <= k <= Width() && Shaped()
        invariant Factored(f, a, Rows(), pivots, k, Width()) && Unlisted(a, pivots, Width())
        invariant Roles(pivots, k, firstHeavyPivot, Light(), extra) && AllListed(pivots, Light(), extra)
        invariant forall i :: 0 <= i < firstHeavyColumn ==> pivots[i] < Light()
      {
        ghost var rows, before := Rows(), pivots;
        FactoredShape(f, a, rows, pivots, k, Width());
        var start := if k < firstHeavyPivot then firstHeavyPivot else k;
        var found, first := LightColumn(k, start);
        if found {
          ghost var rows1 := Rows();
          RolesStep(before, pivots, k, firstHeavyPivot, Light(), extra);
          ClearHeavy(k, start, rows, first);
        } else {
          found, first := HeavyColumn(k, start);
        }
        if !found {
          StuckSingular(f, a, Rows(), pivots, k, Width(), Width());
          nextPivot := k;
          return false;
        }
        ClearingEnds(f, a, rows, Rows(), before, pivots, k, Width(), first);
        UnlistedKept(a, before, pivots, Width(), k);
        ListKept(before, pivots, k, Light(), extra);
        k := k + 1;
      }
      return true;
    }

    lemma BitRows(k: nat)
      requires Shaped() && k < Width()
      ensures forall r :: 0 <= r < |comp.ge| ==>
                r < |Rows()| && |Rows()[r]| == Width() && Rows()[r][k] == if comp.ge[r][k] then ONE else ZERO
    {}
  }

  lemma FullAt(ge: seq<Bits>, heavy: seq<Row>, fhc: nat, r: nat, h: nat)
    ensures r < |ge| ==> FullRows(ge, heavy, fhc)[r] == Lift(ge[r])
    ensures h < |heavy| ==> FullRows(ge, heavy, fhc)[|ge| + h] == ZeroRow(fhc) + heavy[h]
  {}
}
