/** BackSubstituteAboveDiagonal: back substitution, in windows while they pay, then column by column
    (src/fec/Wirehair.cpp). */
module AboveDiagonal {
  import opened Blocks
  import opened GaloisField
  import opened Solving
  import opened Triangle
  import opened Windows
  import opened Substitution
  import opened WindowTable
  import opened Subdiagonal

  const CAT_ABOVE_WIN_THRESH_4: nat := 24
  const CAT_ABOVE_WIN_THRESH_5: nat := 45
  const CAT_ABOVE_WIN_THRESH_6: nat := 70
  const CAT_ABOVE_WIN_THRESH_7: nat := 135

  /** Least pivot index from which a window of w bits is used. */
  function AboveThreshold(w: nat): nat {
    if w == 7 then CAT_ABOVE_WIN_THRESH_7 else if w == 6 then CAT_ABOVE_WIN_THRESH_6
    else if w == 5 then CAT_ABOVE_WIN_THRESH_5 else CAT_ABOVE_WIN_THRESH_4
  }

  /** The values from p on are final; the others have the columns from p on substituted. */
  ghost predicate Above(levels: seq<nat>, p: nat) {
    && (forall i :: 0 <= i < |levels| && i < p ==> levels[i] == p)
    && (forall i :: p <= i < |levels| ==> levels[i] <= i)
  }

  ghost predicate DiagonalSet(us: seq<Row>) {
    forall i :: 0 <= i < |us| ==> i < |us[i]| && us[i][i] != ZERO
  }

  lemma DiagonalEntry(elim: Eliminator, i: nat)
    requires InForm(elim) && i < elim.Width() && DiagonalSet(Us(elim))
    ensures Entry(elim, i, i) != ZERO && Square(Us(elim)) && Us(elim)[i][i] == Entry(elim, i, i)
  {
    hide InForm, Us;
    InFormWidth(elim);
    EntryIs(elim, i, i);
  }

  /** Divides out the diagonal of value s and substitutes it into values q..s-1. */
  method SolveColumn(elim: Eliminator, s: nat, q: nat, ghost ys: seq<Block>, ghost levels0: seq<nat>)
    returns (ghost levels: seq<nat>)
    requires InForm(elim) && DiagonalSet(Us(elim)) && BackwardAt(elim.f, Us(elim), ys, Vals(elim), levels0)
    requires q <= s < elim.Width() && |levels0| == elim.Width() && forall i :: q <= i <= s ==> levels0[i] == s + 1
    modifies elim.comp`recovery
    ensures InForm(elim) && DiagonalSet(Us(elim)) && Us(elim) == old(Us(elim))
    ensures |elim.comp.recovery| == old(|elim.comp.recovery|)
    ensures BackwardAt(elim.f, Us(elim), ys, Vals(elim), levels) && |levels| == elim.Width()
    ensures forall i :: 0 <= i < |levels| ==> levels[i] == if q <= i <= s then s else levels0[i]
  {
    hide InForm, BackwardAt, Add, Scale, Us, Quotient, Vals;
    InFormWidth(elim);
    DiagonalEntry(elim, s);
    BackwardDivide(elim.f, Us(elim), ys, Vals(elim), levels0, s);
    DivideDiagonal(elim, s);
    levels := levels0[s := s];
    for d := q to s
      invariant InForm(elim) && Us(elim) == old(Us(elim)) && |elim.comp.recovery| == old(|elim.comp.recovery|)
      invariant BackwardAt(elim.f, Us(elim), ys, Vals(elim), levels) && |levels| == elim.Width()
      invariant forall i :: 0 <= i < |levels| ==> levels[i] == if q <= i < d || i == s then s else levels0[i]
    {
      BackwardStep(elim.f, Us(elim), ys, Vals(elim), levels, d, s);
      EntryIs(elim, d, s);
      AddScaled(elim, d, s, Entry(elim, d, s));
      levels := levels[d := s];
    }
  }

  /** Adds to value i of a heavy row its part of columns q..q+w-1, one at a time. */
  method AddHeavySpan(elim: Eliminator, i: nat, q: nat, w: nat)
    requires InForm(elim) && i < q && q + w <= elim.Width() && |Us(elim)[i]| == elim.Width()
    modifies elim.comp`recovery
    ensures InForm(elim) && Us(elim) == old(Us(elim)) && |elim.comp.recovery| == old(|elim.comp.recovery|)
    ensures Vals(elim)
              == old(Vals(elim))[i := Add(old(Vals(elim))[i], Span(elim.f, Us(elim)[i], old(Vals(elim)), q, w))]
    ensures OffMapSame(old(elim.comp.recovery), elim.comp.recovery, elim.comp.colMap)
  {
    hide InForm, Add, Scale, Us, Entry, Vals;
    ghost var vals := Vals(elim);
    InFormWidth(elim);
    AddZero(vals[i]);
    assert vals == vals[i := vals[i]];
    for k := 0 to w
      invariant InForm(elim) && Us(elim) == old(Us(elim)) && |elim.comp.recovery| == old(|elim.comp.recovery|)
      invariant Vals(elim) == vals[i := Add(vals[i], Span(elim.f, Us(elim)[i], vals, q, k))]
      invariant OffMapSame(old(elim.comp.recovery), elim.comp.recovery, elim.comp.colMap)
    {
      EntryIs(elim, i, q + k);
      AddAssoc(vals[i], Span(elim.f, Us(elim)[i], vals, q, k), Scale(elim.f, Us(elim)[i][q + k], vals[q + k]));
      AddScaled(elim, i, q + k, Entry(elim, i, q + k));
    }
  }

  /** The window's own triangle, from its last column up. */
  method SolveWindow(elim: Eliminator, q: nat, w: nat, ghost ys: seq<Block>, ghost levels0: seq<nat>)
    returns (ghost levels: seq<nat>)
    requires InForm(elim) && DiagonalSet(Us(elim)) && BackwardAt(elim.f, Us(elim), ys, Vals(elim), levels0)
    requires 0 < w && q + w <= elim.Width() && Above(levels0, q + w)
    modifies elim.comp`recovery
    ensures InForm(elim) && DiagonalSet(Us(elim)) && Us(elim) == old(Us(elim))
    ensures |elim.comp.recovery| == old(|elim.comp.recovery|)
    ensures BackwardAt(elim.f, Us(elim), ys, Vals(elim), levels) && |levels| == elim.Width()
    ensures forall i :: q <= i < |levels| ==> levels[i] <= i
    ensures forall i :: 0 <= i < q ==> levels[i] == q + w
  {
    hide InForm, BackwardAt, Us, Vals, DiagonalSet;
    InFormWidth(elim);
    BackwardShape(elim.f, Us(elim), ys, Vals(elim), levels0);
    levels := levels0;
    var s := q + w;
    while s > q
      invariant q <= s <= q + w
      invariant InForm(elim) && DiagonalSet(Us(elim)) && Us(elim) == old(Us(elim))
      invariant |elim.comp.recovery| == old(|elim.comp.recovery|)
      invariant BackwardAt(elim.f, Us(elim), ys, Vals(elim), levels) && |levels| == elim.Width()
      invariant forall i :: s <= i < |levels| ==> levels[i] <= i
      invariant forall i :: q <= i < s ==> levels[i] == s
      invariant forall i :: 0 <= i < q ==> levels[i] == q + w
    {
      s := s - 1;
      levels := SolveColumn(elim, s, q, ys, levels);
    }
  }

  /** Adds the window's columns to every heavy row above it, then its table entries to every binary row above it. */
  method ApplyWindow(elim: Eliminator, table0: seq<nat>, q: nat, w: nat, ghost ys: seq<Block>, ghost levels0: seq<nat>)
    returns (table: seq<nat>, ghost levels: seq<nat>)
    requires InForm(elim) && DiagonalSet(Us(elim))
    requires BackwardAt(elim.f, Us(elim), ys, Vals(elim), levels0) && |levels0| == elim.Width()
    requires 0 < w <= 7 && q + w <= elim.Width() && Pow2(w) <= |table0|
    requires forall i :: q <= i < |levels0| ==> levels0[i] <= i
    requires forall i :: 0 <= i < q ==> levels0[i] == q + w
    requires Slots(table0, elim.comp.colMap, |elim.comp.recovery|)
    modifies elim.comp`recovery
    ensures InForm(elim) && DiagonalSet(Us(elim)) && Us(elim) == old(Us(elim))
    ensures |elim.comp.recovery| == old(|elim.comp.recovery|)
    ensures BackwardAt(elim.f, Us(elim), ys, Vals(elim), levels) && |levels| == elim.Width() && Above(levels, q)
    ensures |table| == |table0| && Slots(table, elim.comp.colMap, |elim.comp.recovery|)
  {
    hide InForm, BackwardAt, Add, Us, Vals, Slots, Filled, Mapped, Span, Pow2;
    InFormWidth(elim);
    levels := levels0;
    for i := 0 to q
      invariant InForm(elim) && Us(elim) == old(Us(elim)) && |elim.comp.recovery| == old(|elim.comp.recovery|)
      invariant BackwardAt(elim.f, Us(elim), ys, Vals(elim), levels) && |levels| == elim.Width()
      invariant forall j :: q <= j < |levels| ==> levels[j] <= j
      invariant forall j :: 0 <= j < q ==> levels[j] == if j < i && elim.pivots[j] >= elim.Light() then q else q + w
    {
      if elim.pivots[i] >= elim.Light() {
        BackwardWindow(elim.f, Us(elim), ys, Vals(elim), levels, i, q, w);
        AddHeavySpan(elim, i, q, w);
        levels := levels[i := q];
      }
    }
    table := BuildTable(elim, table0, q, w);
    ghost var vals := Vals(elim);
    for i := 0 to q
      invariant InForm(elim) && Us(elim) == old(Us(elim)) && |elim.comp.recovery| == old(|elim.comp.recovery|)
      invariant BackwardAt(elim.f, Us(elim), ys, Vals(elim), levels) && |levels| == elim.Width()
      invariant forall j :: q <= j < |levels| ==> levels[j] <= j
      invariant forall j :: 0 <= j < q ==> levels[j] == if j < i || elim.pivots[j] >= elim.Light() then q else q + w
      invariant Filled(elim.comp.recovery, table, vals, q, w, Pow2(w))
      invariant forall c :: q <= c < q + w ==> Vals(elim)[c] == vals[c]
    {
      if elim.pivots[i] < elim.Light() {
        SpanSame(elim.f, Us(elim)[i], Vals(elim), vals, q, w);
        BackwardWindow(elim.f, Us(elim), ys, Vals(elim), levels, i, q, w);
        ApplyTable(elim, table, i, q, w, vals);
        levels := levels[i := q];
      }
    }
  }

  /** All the windows; returns how many leading values are left for the plain loop. */
  method BackwardWindows(elim: Eliminator, ghost ys: seq<Block>) returns (left: nat, ghost levels: seq<nat>)
    requires InForm(elim) && DiagonalSet(Us(elim)) && ys == Vals(elim) && ScratchFree(elim) && elim.Width() > 0
    modifies elim.comp`recovery
    ensures InForm(elim) && DiagonalSet(Us(elim)) && Us(elim) == old(Us(elim))
    ensures |elim.comp.recovery| == old(|elim.comp.recovery|)
    ensures BackwardAt(elim.f, Us(elim), ys, Vals(elim), levels) && |levels| == elim.Width()
    ensures left <= elim.Width() && Above(levels, left)
  {
    hide InForm, BackwardAt, Us, Slots, Pow2, ScratchFree, DiagonalSet;
    InFormWidth(elim);
    var count := elim.Width();
    levels := seq(count, _ => count);
    BackwardStart(elim.f, Us(elim), ys);
    ghost var n := |Us(elim)|;
    assert levels == seq(n, _ => n);
    left := count;
    if count - 1 >= CAT_ABOVE_WIN_THRESH_5 {
      var w := if count - 1 >= CAT_ABOVE_WIN_THRESH_7 then 7 else if count - 1 >= CAT_ABOVE_WIN_THRESH_6 then 6 else 5;
      var check := AboveThreshold(w);
      PowerBounds();
      var table, enough := FindScratch(elim, Pow2(w));
      var more := enough;
      while more
        invariant InForm(elim) && DiagonalSet(Us(elim)) && Us(elim) == old(Us(elim))
        invariant |elim.comp.recovery| == old(|elim.comp.recovery|)
        invariant BackwardAt(elim.f, Us(elim), ys, Vals(elim), levels) && |levels| == count && Above(levels, left)
        invariant 0 < left <= count && 4 <= w <= 7
        invariant more ==> left - 1 >= AboveThreshold(w) && check == AboveThreshold(w)
        invariant more ==> Pow2(w) <= |table| && Slots(table, elim.comp.colMap, |elim.comp.recovery|)
        decreases left, more
      {
        var q := left - w;
        levels := SolveWindow(elim, q, w, ys, levels);
        table, levels := ApplyWindow(elim, table, q, w, ys, levels);
        left := q;
        if left - 1 < check {
          if left - 1 >= CAT_ABOVE_WIN_THRESH_4 {
            w := if left - 1 >= CAT_ABOVE_WIN_THRESH_6 then 6 else if left - 1 >= CAT_ABOVE_WIN_THRESH_5 then 5 else 4;
            check := AboveThreshold(w);
            PowerBounds();
          } else {
            more := false;
          }
        }
      }
    }
  }

  /** Back substitution: windowed or not, every value ends as the plain column-at-a-time loop leaves it. */
  method BackSubstituteAboveDiagonal(elim: Eliminator)
    requires InForm(elim) && DiagonalSet(Us(elim)) && ScratchFree(elim) && elim.Width() > 0
    modifies elim.comp`recovery
    ensures InForm(elim) && Us(elim) == old(Us(elim)) && |elim.comp.recovery| == old(|elim.comp.recovery|)
    ensures Square(Us(elim)) && Vals(elim) == BackwardAll(elim.f, Us(elim), old(Vals(elim)))
  {
    hide InForm, BackwardAt, Us, ScratchFree, BackwardAll, DiagonalSet;
    ghost var ys := Vals(elim);
    var p: nat;
    ghost var levels: seq<nat>;
    p, levels := BackwardWindows(elim, ys);
    InFormWidth(elim);
    while p > 0
      invariant p <= elim.Width() && InForm(elim) && DiagonalSet(Us(elim))
      invariant Us(elim) == old(Us(elim)) && |elim.comp.recovery| == old(|elim.comp.recovery|)
      invariant BackwardAt(elim.f, Us(elim), ys, Vals(elim), levels) && |levels| == elim.Width() && Above(levels, p)
    {
      p := p - 1;
      levels := SolveColumn(elim, p, 0, ys, levels);
    }
    BackwardEnd(elim.f, Us(elim), ys, Vals(elim), levels);
  }
}
