/** Messages of coded symbols: the bytes an encoder writes for them, and that a decoder reads the same symbols back. */
module RangeMessage {
  import opened RangeSpec

  const HALF: nat := 0x1_0000_0000

  /** One coded symbol: a biased bit, a field with total equally likely values, or a slice of a 16-bit table. */
  datatype Op = Bit(b: bool, freq: nat) | Field(symbol: nat, total: nat) | Slice(lo: nat, width: nat)

  /** What the source asks of its callers. A table slice is never the first symbol of a message. */
  predicate OpOk(op: Op) {
    match op
    case Bit(_, freq) => 0 < freq < HALF
    case Field(symbol, total) => symbol < total < HALF
    case Slice(lo, width) => 0 < width && lo + width <= 0x1_0000
  }

  predicate MessageOk(ops: seq<Op>) {
    (forall i :: 0 <= i < |ops| ==> OpOk(ops[i])) && (ops != [] ==> !ops[0].Slice?)
  }

  /** The first symbol splits the whole 64-bit range. */
  function First(op: Op): Coder
    requires OpOk(op)
  {
    match op
    case Bit(b, freq) => if b then Coder(freq * HALF, (HALF - freq) * HALF) else Coder(0, freq * HALF)
    case Field(symbol, total) => var r := (WORD - 1) / total; Coder(symbol * r, r)
    case Slice(_, _) => Coder(0, 1)
  }

  /** The width of one unit of a split range. */
  function Unit(range: nat, op: Op): nat
    requires OpOk(op)
  {
    match op
    case Bit(_, _) => range / HALF
    case Field(_, total) => range / total
    case Slice(_, _) => range / 0x1_0000
  }

  /** The part of the interval a symbol selects, in units: where it begins and how many it has. */
  function Begin(op: Op): nat {
    match op
    case Bit(b, freq) => if b then freq else 0
    case Field(symbol, _) => symbol
    case Slice(lo, _) => lo
  }

  function Count(op: Op): nat
    requires OpOk(op)
  {
    match op
    case Bit(b, freq) => if b then HALF - freq else freq
    case Field(_, _) => 1
    case Slice(_, width) => width
  }

  function Parts(op: Op): nat {
    match op
    case Bit(_, _) => HALF
    case Field(_, total) => total
    case Slice(_, _) => 0x1_0000
  }

  /** A later symbol selects its part of the normalised interval. */
  function Narrow(c: Coder, op: Op): Coder
    requires OpOk(op)
  {
    Coder(c.low + Begin(op) * Unit(c.range, op), Count(op) * Unit(c.range, op))
  }

  /** The parts of a symbol's values lie side by side in the order of the values, each as wide as its share of the
      units, and less than a unit for each part is left over: of a bit, clear comes first. */
  lemma PartsTile(c: Coder, freq: nat, symbol: nat, total: nat)
    requires c.range >= MAX_RANGE && 0 < freq < HALF && symbol + 1 < total < HALF
    ensures var clear, set' := Narrow(c, Bit(false, freq)), Narrow(c, Bit(true, freq));
            && clear.low == c.low && set'.low == clear.low + clear.range
            && clear.range * (HALF - freq) == set'.range * freq
            && 0 <= c.low + c.range - (set'.low + set'.range) < HALF
    ensures var part, after := Narrow(c, Field(symbol, total)), Narrow(c, Field(symbol + 1, total));
            && after.low == part.low + part.range && after.range == part.range
            && Narrow(c, Field(0, total)).low == c.low
            && 0 <= c.low + c.range - (Narrow(c, Field(total - 1, total)).low + part.range) < total
  {
    var r, q := c.range / HALF, c.range / total;
    assert freq * r * (HALF - freq) == (HALF - freq) * r * freq by {
      ThreeFactors(freq, r, HALF - freq);
    }
    assert c.range == HALF * r + c.range % HALF && c.range == total * q + c.range % total;
    SumTimes(freq, HALF - freq, r);
    SumTimes(symbol, 1, q);
    SumTimes(total - 1, 1, q);
  }

  /** So do two slices of a table. */
  lemma SlicesTile(c: Coder, lo: nat, width: nat, width': nat)
    requires 0 < width && 0 < width' && lo + width + width' <= 0x1_0000
    ensures var part, after := Narrow(c, Slice(lo, width)), Narrow(c, Slice(lo + width, width'));
            && after.low == part.low + part.range && part.range * width' == after.range * width
            && Narrow(c, Slice(0, width)).low == c.low
            && 0 <= c.range - Narrow(c, Slice(0, 0x1_0000)).range < 0x1_0000
  {
    SumTimes(lo, width, c.range / 0x1_0000);
    ThreeFactors(width, c.range / 0x1_0000, width');
  }

  lemma ThreeFactors(a: nat, b: nat, c: nat)
    ensures a * b * c == c * b * a
  {}

  /** And the first symbol's of the whole 64-bit range. */
  lemma FirstPartsTile(freq: nat, symbol: nat, total: nat)
    requires 0 < freq < HALF && symbol + 1 < total < HALF
    ensures var clear, set' := First(Bit(false, freq)), First(Bit(true, freq));
            && clear.low == 0 && set'.low == clear.range == freq * HALF && set'.low + set'.range == WORD
    ensures var part, after := First(Field(symbol, total)), First(Field(symbol + 1, total));
            && after.low == part.low + part.range && after.range == part.range && First(Field(0, total)).low == 0
            && 0 <= WORD - 1 - (First(Field(total - 1, total)).low + part.range) < total
  {
    var q := (WORD - 1) / total;
    assert WORD - 1 == total * q + (WORD - 1) % total;
    SumTimes(symbol, 1, q);
    SumTimes(total - 1, 1, q);
  }

  lemma MulMono(a: nat, b: nat, x: nat)
    requires a <= b
    ensures a * x <= b * x
  {}

  /** The selected part is a good interval inside the old one. */
  lemma NarrowInside(c: Coder, op: Op)
    requires Good(c) && c.range >= MAX_RANGE && OpOk(op)
    ensures Unit(c.range, op) > 0 && Good(Narrow(c, op))
    ensures forall y :: Holds(Narrow(c, op), y) ==> Holds(c, y)
  {
    var r, n := Unit(c.range, op), Parts(op);
    UnitPositive(c.range, op);
    assert Begin(op) + Count(op) <= n;
    MulMono(Begin(op) + Count(op), n, r);
    MulMono(1, Count(op), r);
    assert (Begin(op) + Count(op)) * r == Begin(op) * r + Count(op) * r;
  }

  lemma UnitPositive(range: nat, op: Op)
    requires range >= MAX_RANGE && OpOk(op)
    ensures Unit(range, op) > 0 && Parts(op) * Unit(range, op) <= range
  {}

  /** The number a decoder divides out: how many whole units the code is past low. */
  function UnitsPast(c: Coder, op: Op, code: nat): nat
    requires OpOk(op) && c.low <= code && Unit(c.range, op) > 0
  {
    (code - c.low) / Unit(c.range, op)
  }

  /** If the selected part holds the code, the decoder's quotient falls in the symbol's units and nowhere else. */
  lemma QuotientSelects(c: Coder, op: Op, code: nat)
    requires Good(c) && c.range >= MAX_RANGE && OpOk(op) && Holds(Narrow(c, op), code)
    ensures Unit(c.range, op) > 0 && c.low <= code
    ensures Begin(op) <= UnitsPast(c, op, code) < Begin(op) + Count(op) <= Parts(op)
  {
    UnitPositive(c.range, op);
    QuotientIn(code - c.low, Unit(c.range, op), Begin(op), Count(op));
  }

  lemma QuotientIn(x: nat, r: nat, lo: nat, n: nat)
    requires r > 0 && lo * r <= x < lo * r + n * r
    ensures lo <= x / r < lo + n
  {
    var q := x / r;
    QuotientBounds(x, r);
    if q < lo {
      MulMono(q + 1, lo, r);
    }
    if q >= lo + n {
      MulMono(lo + n, q, r);
      SumTimes(lo, n, r);
    }
  }

  lemma QuotientBounds(x: nat, r: nat)
    requires r > 0
    ensures x / r * r <= x < (x / r + 1) * r
  {}

  lemma SumTimes(a: nat, b: nat, r: nat)
    ensures (a + b) * r == a * r + b * r
  {}

  lemma FirstGood(op: Op)
    requires OpOk(op) && !op.Slice?
    ensures Good(First(op))
  {
    if op.Field? {
      var r := (WORD - 1) / op.total;
      MulMono(op.symbol + 1, op.total, r);
      assert (op.symbol + 1) * r == op.symbol * r + r;
      assert op.total * r <= WORD - 1;
    }
  }

  // ---- Whole messages ----

  /** low and range after the symbols, before the next normalisation. */
  function StateAfter(ops: seq<Op>): (c: Coder)
    requires ops != [] && MessageOk(ops)
    ensures Good(c)
  {
    var init, last := ops[..|ops| - 1], ops[|ops| - 1];
    if init == [] then FirstGood(last); First(last)
    else NarrowInside(Norm(StateAfter(init)), last); Narrow(Norm(StateAfter(init)), last)
  }

  /** The bytes written by then. */
  function BytesAfter(ops: seq<Op>): seq<Byte>
    requires ops != [] && MessageOk(ops)
  {
    var init := ops[..|ops| - 1];
    if init == [] then [] else BytesAfter(init) + NormBytes(StateAfter(init))
  }

  /** What Finish appends to a normalised coder: the top byte or two of the interval's last value, or nothing. */
  function Tail(c: Coder): seq<Byte>
    requires Good(c)
  {
    if c.low == 0 then []
    else
      var v := c.low + c.range - 1;
      [v / TOP % 256] + if c.range < TOP then [v * 256 % WORD / TOP % 256] else []
  }

  /** The complete encoding. */
  function Encoding(ops: seq<Op>): seq<Byte>
    requires ops != [] && MessageOk(ops)
  {
    var c := StateAfter(ops);
    BytesAfter(ops) + NormBytes(c) + Tail(Norm(c))
  }

  /** Zero padding past the tail keeps the code inside the last interval. */
  lemma TailHolds(c: Coder, data: seq<Byte>, i: nat)
    requires Good(c) && !NeedsShift(c) && |data| == i + |Tail(c)| && HasBytes(data, i, Tail(c))
    ensures Holds(c, Code(data, i))
  {
    hide Code;
    var v := c.low + c.range - 1;
    CodeStep(data, i);
    CodeStep(data, i + 1);
    PastEnd(data, i + 2);
    var tail := Tail(c);
    if c.low == 0 {
      PastEnd(data, i);
    } else {
      assert ByteAt(data, i + 0) == tail[0];
      TopOf(v);
      if c.range < TOP {
        assert ByteAt(data, i + 1) == tail[1];
        SecondOf(v);
      } else {
        PastEnd(data, i + 1);
      }
    }
  }

  lemma {:induction false} ZeroWindow(data: seq<Byte>, i: nat, k: nat)
    requires i >= |data|
    ensures Window(data, i, k) == 0
  {
    if k > 0 {
      ZeroWindow(data, i, k - 1);
    }
  }

  lemma PastEnd(data: seq<Byte>, i: nat)
    ensures i >= |data| ==> Code(data, i) == 0
  {
    if i >= |data| {
      ZeroWindow(data, i, 8);
    }
  }

  lemma TopOf(v: nat)
    requires v < WORD
    ensures v / TOP % 256 == v / TOP && v / TOP * TOP <= v < v / TOP * TOP + TOP
  {}

  lemma SecondOf(v: nat)
    requires v < WORD
    ensures var d, e := v / TOP, v * 256 % WORD / TOP % 256;
            d * TOP + e * MAX_RANGE <= v < d * TOP + e * MAX_RANGE + MAX_RANGE && e * TOP / 256 == e * MAX_RANGE
  {
    var d, m := v / TOP, v % TOP;
    assert v * 256 == d * WORD + m * 256;
    ModIs(d, m * 256);
    var e := m * 256 / TOP;
    assert m * 256 == e * TOP + m * 256 % TOP;
    assert e < 256;
  }

  // ---- How long the tail has to be ----

  /** These last bytes, with zeros after them, lie in the interval, whatever comes before them. */
  ghost predicate Suffices(c: Coder, tail: seq<Byte>) {
    forall data: seq<Byte>, i: nat :: |data| == i + |tail| && HasBytes(data, i, tail) ==> Holds(c, Code(data, i))
  }

  lemma TailSuffices(c: Coder)
    requires Good(c) && !NeedsShift(c)
    ensures Suffices(c, Tail(c))
  {
    hide Tail, Code, Holds;
    forall data: seq<Byte>, i: nat | |data| == i + |Tail(c)| && HasBytes(data, i, Tail(c))
      ensures Holds(c, Code(data, i))
    {
      TailHolds(c, data, i);
    }
  }

  /** One byte stands for a multiple of 2^56, and no byte for zero. */
  lemma ShortSuffices(c: Coder, tail: seq<Byte>)
    requires |tail| <= 1
    ensures Suffices(c, tail) <==> Holds(c, if tail == [] then 0 else tail[0] * TOP)
  {
    hide Code;
    forall data: seq<Byte>, i: nat | |data| == i + |tail| && HasBytes(data, i, tail)
      ensures Code(data, i) == if tail == [] then 0 else tail[0] * TOP
    {
      PastEnd(data, i);
      PastEnd(data, i + 1);
      CodeStep(data, i);
      assert tail != [] ==> ByteAt(data, i + 0) == tail[0];
    }
    assert HasBytes(tail, 0, tail) && Suffices(c, tail) ==> Holds(c, Code(tail, 0));
  }

  /** The tail is as short as can be exactly when it has at most one byte, or the interval ends at a multiple of 2^56:
      any other interval that is too small for one byte to be safe still holds such a multiple. */
  lemma TailShortestIff(c: Coder)
    requires Good(c) && !NeedsShift(c)
    ensures (forall t: seq<Byte> :: |t| < |Tail(c)| ==> !Suffices(c, t)) <==>
            c.low == 0 || c.range >= TOP || (c.low + c.range) % TOP == 0
  {
    hide Suffices, Tail;
    TailLength(c);
    if c.low > 0 {
      ShortSuffices(c, []);
      if c.range < TOP {
        Crossing(c);
        var b := c.low / TOP + 1;
        if (c.low + c.range) % TOP == 0 {
          forall t: seq<Byte> | |t| == 1 ensures !Suffices(c, t) {
            ShortSuffices(c, t);
          }
        } else {
          var t: seq<Byte> := [b];
          ShortSuffices(c, t);
          assert |t| < |Tail(c)|;
        }
      }
    }
  }

  /** The number one or two last bytes stand for. */
  function TailValue(tail: seq<Byte>): nat
    requires 1 <= |tail| <= 2
  {
    tail[0] * TOP + if |tail| == 2 then tail[1] * MAX_RANGE else 0
  }

  lemma LastSuffices(c: Coder, tail: seq<Byte>)
    requires 1 <= |tail| <= 2
    ensures Suffices(c, tail) <==> Holds(c, TailValue(tail))
  {
    hide Code;
    forall data: seq<Byte>, i: nat | |data| == i + |tail| && HasBytes(data, i, tail)
      ensures Code(data, i) == TailValue(tail)
    {
      PastEnd(data, i + 1);
      PastEnd(data, i + 2);
      CodeStep(data, i);
      CodeStep(data, i + 1);
      assert ByteAt(data, i + 0) == tail[0];
      assert |tail| == 2 ==> ByteAt(data, i + 1) == tail[1] && tail[1] * TOP / 256 == tail[1] * MAX_RANGE;
    }
    assert HasBytes(tail, 0, tail) && Suffices(c, tail) ==> Holds(c, Code(tail, 0));
  }

  // What the tail stands for is the interval's last value, but for less than its last byte is worth.
  lemma TailIs(c: Coder)
    requires Good(c) && c.low > 0
    ensures var v, tail := c.low + c.range - 1, Tail(c);
            && 1 <= |tail| <= 2
            && TailValue(tail) <= v < TailValue(tail) + if |tail| == 1 then TOP else MAX_RANGE
  {
    TopOf(c.low + c.range - 1);
    SecondOf(c.low + c.range - 1);
  }

  /** Of all tails of its length it is the largest that lies in the interval. */
  lemma TailLargest(c: Coder, t: seq<Byte>)
    requires Good(c) && !NeedsShift(c) && c.low > 0 && |t| == |Tail(c)| && Suffices(c, t)
    ensures 1 <= |t| <= 2 && 1 <= |Tail(c)| <= 2
    ensures TailValue(t) <= TailValue(Tail(c)) && Holds(c, TailValue(Tail(c)))
  {
    hide Suffices, Tail;
    TailSuffices(c);
    TailIs(c);
    LastSuffices(c, Tail(c));
    LastSuffices(c, t);
  }

  lemma TailLength(c: Coder)
    requires Good(c)
    ensures |Tail(c)| == if c.low == 0 then 0 else if c.range >= TOP then 1 else 2
  {}

  // A normalised interval shorter than 2^56 reaches the next multiple of it, and no further one.
  lemma Crossing(c: Coder)
    requires Good(c) && !NeedsShift(c) && c.range < TOP
    ensures var next := (c.low / TOP + 1) * TOP;
            && c.low < next <= c.low + c.range && (next == c.low + c.range <==> (c.low + c.range) % TOP == 0)
            && (next < c.low + c.range ==> c.low / TOP + 1 < 256)
            && forall b: nat :: Holds(c, b * TOP) ==> b * TOP == next
  {}

  lemma OneSymbol(op: Op)
    requires OpOk(op) && !op.Slice?
    ensures MessageOk([op]) && StateAfter([op]) == First(op) && BytesAfter([op]) == []
  {
    hide First, Norm, NormBytes;
    assert [op][..0] == [];
  }

  lemma NormalAlready(c: Coder)
    requires Good(c) && !NeedsShift(c)
    ensures Norm(c) == c && NormBytes(c) == []
  {}

  /** A tail that is longer: the value 3 of 1000 is encoded in two bytes, and one would do. */
  lemma LongTail()
    ensures MessageOk([Field(3, 1000)])
    ensures var c := StateAfter([Field(3, 1000)]);
            && !NeedsShift(c) && Encoding([Field(3, 1000)]) == Tail(c) && |Tail(c)| == 2 && Suffices(c, [1])
  {
    hide Suffices, Norm, NormBytes, StateAfter, BytesAfter, Tail;
    OneSymbol(Field(3, 1000));
    var c := Coder(55340232221128653, 18446744073709551);
    assert First(Field(3, 1000)) == c;
    NormalAlready(c);
    TailLength(c);
    ShortSuffices(c, [1]);
  }

  // ---- The round trip ----

  lemma PrefixOk(ops: seq<Op>, i: nat)
    requires MessageOk(ops) && 0 < i <= |ops|
    ensures MessageOk(ops[..i]) && ops[..i] != []
    ensures i > 1 ==> ops[..i][..i - 1] == ops[..i - 1]
  {}

  /** How the state and the bytes grow by one symbol. */
  lemma OneMore(ops: seq<Op>, i: nat)
    requires MessageOk(ops) && 0 < i < |ops|
    ensures MessageOk(ops[..i]) && MessageOk(ops[..i + 1]) && OpOk(ops[i])
    ensures StateAfter(ops[..i + 1]) == Narrow(Norm(StateAfter(ops[..i])), ops[i])
    ensures BytesAfter(ops[..i + 1]) == BytesAfter(ops[..i]) + NormBytes(StateAfter(ops[..i]))
  {
    hide Narrow, Norm, NormBytes;
    var longer := ops[..i + 1];
    assert longer[..i] == ops[..i] && longer[i] == ops[i];
  }

  /** Bytes written early stay where they are. */
  lemma {:induction false} BytesStay(ops: seq<Op>, i: nat)
    requires MessageOk(ops) && 0 < i <= |ops|
    ensures MessageOk(ops[..i])
    ensures BytesAfter(ops[..i]) + NormBytes(StateAfter(ops[..i])) <= Encoding(ops)
    decreases |ops| - i
  {
    hide Narrow, Norm, NormBytes, StateAfter, Tail;
    PrefixOk(ops, i);
    if i == |ops| {
      assert ops[..i] == ops;
    } else {
      OneMore(ops, i);
      BytesStay(ops, i + 1);
    }
  }

  /** The code a decoder has after reading i symbols lies in the encoder's interval, and still does after
      both normalise. */
  lemma {:induction false} DecoderStaysInside(ops: seq<Op>, i: nat)
    requires MessageOk(ops) && 0 < i <= |ops|
    ensures MessageOk(ops[..i])
    ensures var c, k := StateAfter(ops[..i]), |BytesAfter(ops[..i])|;
            Holds(c, Code(Encoding(ops), k)) && Holds(Norm(c), Code(Encoding(ops), k + |NormBytes(c)|))
    decreases |ops| - i
  {
    hide Narrow, Norm, NormBytes, StateAfter, Tail, Code, Holds;
    PrefixOk(ops, i);
    BytesStay(ops, i);
    var data, c, before := Encoding(ops), StateAfter(ops[..i]), BytesAfter(ops[..i]);
    var k, bytes := |before|, NormBytes(c);
    forall j | 0 <= j < |bytes| ensures ByteAt(data, k + j) == bytes[j] {
      assert (before + bytes)[k + j] == data[k + j];
    }
    if i == |ops| {
      assert ops[..i] == ops;
      LastHolds(ops);
    } else {
      OneMore(ops, i);
      DecoderStaysInside(ops, i + 1);
      NarrowInside(Norm(c), ops[i]);
    }
    NormHolds(c, data, k);
  }

  lemma LastHolds(ops: seq<Op>)
    requires ops != [] && MessageOk(ops)
    ensures var c := StateAfter(ops);
            Holds(Norm(c), Code(Encoding(ops), |BytesAfter(ops)| + |NormBytes(c)|))
  {
    hide NormBytes, StateAfter, Tail, Code, Holds, BytesAfter, Norm;
    var c := StateAfter(ops);
    var front, tail := BytesAfter(ops) + NormBytes(c), Tail(Norm(c));
    forall j | 0 <= j < |tail| ensures ByteAt(Encoding(ops), |front| + j) == tail[j] {
      assert (front + tail)[|front| + j] == tail[j];
    }
    TailHolds(Norm(c), Encoding(ops), |front|);
  }

  /** The first symbol, read from the first eight bytes. */
  lemma FirstDecodes(op: Op, code: nat)
    requires OpOk(op) && !op.Slice? && Holds(First(op), code) && code < WORD
    ensures op.Bit? ==> (code / HALF < op.freq <==> !op.b)
    ensures op.Field? ==> code / ((WORD - 1) / op.total) == op.symbol
  {
    match op
    case Bit(b, freq) =>
    case Field(symbol, total) =>
      QuotientIn(code, (WORD - 1) / total, symbol, 1);
  }
}
