/** AddSubdiagonalValues: forward substitution, in windows while they pay, then row by row (src/fec/Wirehair.cpp). */
module Subdiagonal {
  import opened ColumnIterator
  import opened CheckMatrix
  import opened Blocks
  import opened GaloisField
  import opened Solving
  import opened Triangle
  import opened Windows
  import opened Substitution
  import opened WindowTable

  const CAT_UNDER_WIN_THRESH_4: nat := 49
  const CAT_UNDER_WIN_THRESH_5: nat := 70
  const CAT_UNDER_WIN_THRESH_6: nat := 91
  const CAT_UNDER_WIN_THRESH_7: nat := 145

  /** Fewest columns left for which a window of w bits is used. */
  function UnderThreshold(w: nat): nat {
    if w == 7 then CAT_UNDER_WIN_THRESH_7 else if w == 6 then CAT_UNDER_WIN_THRESH_6
    else if w == 5 then CAT_UNDER_WIN_THRESH_5 else CAT_UNDER_WIN_THRESH_4
  }

  /** The values before p are final; the others have the columns before p substituted. */
  ghost predicate Below(levels: seq<nat>, p: nat) {
    && (forall i :: 0 <= i < |levels| && i < p ==> i <= levels[i])
    && (forall i :: p <= i < |levels| ==> levels[i] == p)
  }

  /** Substitutes each of the window's columns into the rest of the window. */
  method SmallTriangle(elim: Eliminator, p: nat, w: nat, ghost bs: seq<Block>, ghost levels0: seq<nat>)
    returns (ghost levels: seq<nat>)
    requires InForm(elim) && ForwardAt(elim.f, Us(elim), bs, Vals(elim), levels0) && Below(levels0, p)
    requires 0 < w && p + w <= elim.Width()
    modifies elim.comp`recovery
    ensures InForm(elim) && Us(elim) == old(Us(elim)) && |elim.comp.recovery| == old(|elim.comp.recovery|)
    ensures ForwardAt(elim.f, Us(elim), bs, Vals(elim), levels)
    ensures forall i :: 0 <= i < p + w ==> i <= levels[i]
    ensures forall i :: p + w <= i < |levels| ==> levels[i] == p
  {
    hide InForm, ForwardAt, Add, Scale, Us, Entry;
    levels := levels0;
    ForwardShape(elim.f, Us(elim), bs, Vals(elim), levels);
    InFormWidth(elim);
    var last := p + w - 1;
    for s := p to last
      invariant InForm(elim) && Us(elim) == old(Us(elim)) && |elim.comp.recovery| == old(|elim.comp.recovery|)
      invariant ForwardAt(elim.f, Us(elim), bs, Vals(elim), levels) && |levels| == elim.Width()
      invariant forall i :: 0 <= i <= s ==> i <= levels[i]
      invariant forall i :: s < i <= last ==> levels[i] == s
      invariant forall i :: last < i < |levels| ==> levels[i] == p
    {
      for d := s + 1 to last + 1
        invariant InForm(elim) && Us(elim) == old(Us(elim)) && |elim.comp.recovery| == old(|elim.comp.recovery|)
        invariant ForwardAt(elim.f, Us(elim), bs, Vals(elim), levels) && |levels| == elim.Width()
        invariant forall i :: 0 <= i <= s ==> i <= levels[i]
        invariant forall i :: s < i < d ==> levels[i] == s + 1
        invariant forall i :: d <= i <= last ==> levels[i] == s
        invariant forall i :: last < i < |levels| ==> levels[i] == p
      {
        ForwardStep(elim.f, Us(elim), bs, Vals(elim), levels, d, s);
        EntryIs(elim, d, s);
        AddScaled(elim, d, s, Entry(elim, d, s));
        levels := levels[d := s + 1];
      }
    }
  }

  lemma InFormWidth(elim: Eliminator)
    requires InForm(elim)
    ensures |Us(elim)| == |Vals(elim)| == elim.Width() == |elim.pivots| && Square(Us(elim))
    ensures forall i :: 0 <= i < elim.Width() ==> |Us(elim)[i]| == elim.Width()
    ensures IsField(elim.f) && elim.firstHeavyColumn <= elim.Width()
  {
    hide IsField, Distinct;
    forall i | 0 <= i < elim.Width() ensures |Us(elim)[i]| == elim.Width() {
      EntryIs(elim, i, 0);
    }
  }

  /** One window: its own triangle, its table, then every binary row below it. */
  method Window(elim: Eliminator, table0: seq<nat>, p: nat, w: nat, ghost bs: seq<Block>, ghost levels0: seq<nat>)
    returns (table: seq<nat>, ghost levels: seq<nat>)
    requires InForm(elim) && ForwardAt(elim.f, Us(elim), bs, Vals(elim), levels0) && Below(levels0, p)
    requires 0 < w <= 7 && p + w <= elim.firstHeavyColumn <= elim.Width() && Pow2(w) <= |table0|
    requires Slots(table0, elim.comp.colMap, |elim.comp.recovery|)
    modifies elim.comp`recovery
    ensures InForm(elim) && Us(elim) == old(Us(elim)) && |elim.comp.recovery| == old(|elim.comp.recovery|)
    ensures ForwardAt(elim.f, Us(elim), bs, Vals(elim), levels) && Below(levels, p + w)
    ensures |table| == |table0| && Slots(table, elim.comp.colMap, |elim.comp.recovery|)
  {
    hide InForm, ForwardAt, Add, Us, Slots, Filled, Mapped, Span, Pow2;
    levels := SmallTriangle(elim, p, w, bs, levels0);
    table := BuildTable(elim, table0, p, w);
    InFormWidth(elim);
    ForwardShape(elim.f, Us(elim), bs, Vals(elim), levels);
    ghost var vals := Vals(elim);
    for i := p + w to elim.Width()
      invariant InForm(elim) && Us(elim) == old(Us(elim)) && |elim.comp.recovery| == old(|elim.comp.recovery|)
      invariant ForwardAt(elim.f, Us(elim), bs, Vals(elim), levels) && |levels| == elim.Width()
      invariant forall j :: 0 <= j < p + w ==> j <= levels[j]
      invariant forall j :: p + w <= j < |levels| ==> levels[j] == if j < i then p + w else p
      invariant Filled(elim.comp.recovery, table, vals, p, w, Pow2(w))
      invariant forall c :: p <= c < p + w ==> Vals(elim)[c] == vals[c]
    {
      InFormWidth(elim);
      if elim.pivots[i] >= elim.Light() {
        HeavyZeros(elim, i);
        ForwardPass(elim.f, Us(elim), bs, Vals(elim), levels, i, p, w);
      } else {
        SpanSame(elim.f, Us(elim)[i], Vals(elim), vals, p, w);
        ForwardWindow(elim.f, Us(elim), bs, Vals(elim), levels, i, p, w);
        ApplyTable(elim, table, i, p, w, vals);
      }
      levels := levels[i := p + w];
    }
  }

  /** Heavy rows have nothing before the heavy columns, and are pivots only of heavy columns. */
  lemma HeavyZeros(elim: Eliminator, i: nat)
    requires InForm(elim) && i < elim.Width() && elim.pivots[i] >= elim.Light()
    ensures elim.firstHeavyColumn <= i && |Us(elim)[i]| == elim.Width()
    ensures forall c :: 0 <= c < elim.firstHeavyColumn && c < elim.Width() ==> Us(elim)[i][c] == ZERO
  {
    hide IsField, Distinct, Us;
    InFormWidth(elim);
    forall c | 0 <= c < elim.firstHeavyColumn && c < elim.Width() ensures Us(elim)[i][c] == ZERO {
      EntryIs(elim, i, c);
    }
  }

  /** All the windows; returns the first column left for the plain loop. */
  method ForwardWindows(elim: Eliminator, ghost bs: seq<Block>) returns (p: nat, ghost levels: seq<nat>)
    requires InForm(elim) && bs == Vals(elim) && ScratchFree(elim)
    requires elim.firstHeavyColumn + CAT_HEAVY_MAX_COLS >= elim.Width() > 0
    modifies elim.comp`recovery
    ensures InForm(elim) && Us(elim) == old(Us(elim)) && |elim.comp.recovery| == old(|elim.comp.recovery|)
    ensures ForwardAt(elim.f, Us(elim), bs, Vals(elim), levels) && Below(levels, p)
    ensures p < elim.Width() && (p <= elim.firstHeavyColumn)
  {
    hide InForm, ForwardAt, Us, Slots, Pow2, ScratchFree;
    var count := elim.Width();
    InFormWidth(elim);
    levels := seq(count, _ => 0);
    p := 0;
    ForwardStart(elim.f, Us(elim), bs);
    assert levels == seq(|Us(elim)|, _ => 0);
    if count >= CAT_UNDER_WIN_THRESH_5 {
      var w := if count >= CAT_UNDER_WIN_THRESH_7 then 7 else if count >= CAT_UNDER_WIN_THRESH_6 then 6 else 5;
      var check := count - UnderThreshold(w);
      PowerBounds();
      var table, enough := FindScratch(elim, Pow2(w));
      var more := enough;
      while more
        invariant InForm(elim) && Us(elim) == old(Us(elim)) && |elim.comp.recovery| == old(|elim.comp.recovery|)
        invariant ForwardAt(elim.f, Us(elim), bs, Vals(elim), levels) && Below(levels, p)
        invariant p < count && p <= elim.firstHeavyColumn && 4 <= w <= 7
        invariant more ==> p + UnderThreshold(w) <= count && check + UnderThreshold(w) <= count
        invariant (w <= 5 ==> count - p < CAT_UNDER_WIN_THRESH_6) && (w <= 4 ==> count - p < CAT_UNDER_WIN_THRESH_5)
        invariant more ==> Pow2(w) <= |table| && Slots(table, elim.comp.colMap, |elim.comp.recovery|)
        decreases count - p, more
      {
        table, levels := Window(elim, table, p, w, bs, levels);
        p := p + w;
        if p >= check {
          var remaining := count - p;
          if remaining >= CAT_UNDER_WIN_THRESH_4 {
            w := if remaining >= CAT_UNDER_WIN_THRESH_6 then 6 else if remaining >= CAT_UNDER_WIN_THRESH_5 then 5
                 else 4;
            check := remaining - UnderThreshold(w);
          } else {
            more := false;
          }
        }
      }
    }
  }

  lemma PowerBounds()
    ensures Pow2(4) <= Pow2(5) <= Pow2(6) <= Pow2(7)
  {}

  /** The rest of one row: heavy rows from the first heavy column, binary rows from column p. */
  method FinishRow(elim: Eliminator, i: nat, p: nat, ghost bs: seq<Block>, ghost levels0: seq<nat>)
    returns (ghost levels: seq<nat>)
    requires InForm(elim) && ForwardAt(elim.f, Us(elim), bs, Vals(elim), levels0)
    requires p <= i < elim.Width() && p <= elim.firstHeavyColumn && |levels0| == elim.Width() && levels0[i] == p
    requires forall j :: 0 <= j < i ==> j <= levels0[j]
    modifies elim.comp`recovery
    ensures InForm(elim) && Us(elim) == old(Us(elim)) && |elim.comp.recovery| == old(|elim.comp.recovery|)
    ensures ForwardAt(elim.f, Us(elim), bs, Vals(elim), levels) && levels == levels0[i := i]
  {
    hide InForm, ForwardAt, Add, Scale, Us, Entry;
    InFormWidth(elim);
    levels := levels0;
    var start := p;
    if elim.pivots[i] >= elim.Light() {
      HeavyZeros(elim, i);
      start := elim.firstHeavyColumn;
      ForwardPass(elim.f, Us(elim), bs, Vals(elim), levels, i, p, start - p);
      levels := levels[i := start];
    }
    for c := start to i
      invariant InForm(elim) && Us(elim) == old(Us(elim)) && |elim.comp.recovery| == old(|elim.comp.recovery|)
      invariant ForwardAt(elim.f, Us(elim), bs, Vals(elim), levels) && levels == levels0[i := c]
    {
      ForwardStep(elim.f, Us(elim), bs, Vals(elim), levels, i, c);
      EntryIs(elim, i, c);
      AddScaled(elim, i, c, Entry(elim, i, c));
      levels := levels[i := c + 1];
    }
  }

  /** Forward substitution: windowed or not, every value ends as the plain column-at-a-time loops leave it. */
  method AddSubdiagonalValues(elim: Eliminator)
    requires InForm(elim) && ScratchFree(elim) && elim.firstHeavyColumn + CAT_HEAVY_MAX_COLS >= elim.Width() > 0
    modifies elim.comp`recovery
    ensures InForm(elim) && Us(elim) == old(Us(elim)) && |elim.comp.recovery| == old(|elim.comp.recovery|)
    ensures Square(Us(elim)) && Vals(elim) == ForwardAll(elim.f, Us(elim), old(Vals(elim)))
  {
    hide InForm, ForwardAt, Us, ScratchFree, ForwardAll;
    ghost var bs := Vals(elim);
    var p;
    ghost var levels: seq<nat>;
    p, levels := ForwardWindows(elim, bs);
    InFormWidth(elim);
    ForwardShape(elim.f, Us(elim), bs, Vals(elim), levels);
    for i := p + 1 to elim.Width()
      invariant InForm(elim) && Us(elim) == old(Us(elim)) && |elim.comp.recovery| == old(|elim.comp.recovery|)
      invariant ForwardAt(elim.f, Us(elim), bs, Vals(elim), levels) && |levels| == elim.Width()
      invariant forall j :: 0 <= j < i ==> j <= levels[j]
      invariant forall j :: i <= j < |levels| ==> levels[j] == p
    {
      levels := FinishRow(elim, i, p, bs, levels);
    }
    ForwardEnd(elim.f, Us(elim), bs, Vals(elim), levels);
  }
}
