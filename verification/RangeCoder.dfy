/** RangeEncoder and RangeDecoder (src/codec/RangeCoder.cpp). */
module RangeCoder {
  import opened RangeSpec
  import opened RangeMessage

  class RangeEncoder {
    const limit: nat
    var output: seq<Byte>
    var failed: bool            // output == 0
    var remaining: nat
    var low: nat
    var range: nat
    ghost var ops: seq<Op>      // the symbols encoded so far

    constructor (limit: nat)
      ensures Valid() && this.limit == limit && ops == [] && !failed
    {
      this.limit := limit;
      output, failed, remaining, low, range, ops := [], false, limit, 0, 0, [];
    }

    /** Unless room ran out, the fields are what the symbols so far make them. */
    ghost predicate Valid()
      reads this
    {
      && MessageOk(ops)
      && (failed ==> remaining == 0)
      && (!failed ==>
            && |output| + remaining == limit
            && (ops == [] ==> range == 0 && output == [])
            && (ops != [] ==> Coder(low, range) == StateAfter(ops) && output == BytesAfter(ops)))
    }

    /** Writes a byte for every shift; fails when there is no room for one. */
    method Normalize()
      requires failed ==> remaining == 0
      requires !failed ==> Good(Coder(low, range))
      modifies this`output, this`failed, this`remaining, this`low, this`range
      ensures failed ==> remaining == 0
      ensures failed <==> old(failed) || |NormBytes(old(Coder(low, range)))| > old(remaining)
      ensures !failed ==> Coder(low, range) == Norm(old(Coder(low, range)))
      ensures !failed ==>
                output == old(output) + NormBytes(old(Coder(low, range)))
                && |output| + remaining == |old(output)| + old(remaining)
    {
      hide Norm, NormBytes, Shifted, Kept, SameTop;
      if failed { return; }
      ghost var c0 := Coder(low, range);
      NormUnfold(c0);
      while NeedsShift(Coder(low, range))
        invariant !failed && Good(Coder(low, range)) && Norm(Coder(low, range)) == Norm(c0)
        invariant output + NormBytes(Coder(low, range)) == old(output) + NormBytes(c0)
        invariant |output| + remaining == |old(output)| + old(remaining)
        decreases Phase(Coder(low, range)), Distance(Coder(low, range))
      {
        var c := Coder(low, range);
        NormUnfold(c);
        ShiftProgress(c);
        if !SameTop(c) {
          range := (WORD - low) % MAX_RANGE;
        }
        KeptIs(c, range);
        if remaining == 0 {
          failed := true;
          return;
        }
        remaining := remaining - 1;
        output := output + [TopByte(c)];
        range := range * 256 % WORD;
        low := low * 256 % WORD;
        ShiftedIs(c, low, range);
        NormUnfold(Coder(low, range));
      }
      NormUnfold(Coder(low, range));
    }

    /** A bit that is clear freq times in 2^32. */
    method BiasedBit(b: bool, freq: nat)
      requires Valid() && 0 < freq < HALF
      modifies this
      ensures Valid() && ops == old(ops) + [Bit(b, freq)]
      ensures failed <==> old(failed) || |BytesAfter(ops)| > limit
    {
      hide Norm, NormBytes, StateAfter, BytesAfter, Narrow;
      ghost var op := Bit(b, freq);
      Append(ops, op);
      if !failed && range == 0 {
        low, range := if b then freq * HALF else 0, if b then (HALF - freq) * HALF else freq * HALF;
      } else {
        Normalize();
        if !failed {
          NarrowBit(Coder(low, range), b, freq);
          range := range / HALF;
          low, range := if b then low + freq * range else low, if b then range * (HALF - freq) else range * freq;
        }
      }
      ops := ops + [op];
    }

    /** A field with total equally likely values. */
    method Range(symbol: nat, total: nat)
      requires Valid() && symbol < total < HALF
      modifies this
      ensures Valid() && ops == old(ops) + [Field(symbol, total)]
      ensures failed <==> old(failed) || |BytesAfter(ops)| > limit
    {
      hide Norm, NormBytes, StateAfter, BytesAfter, Narrow;
      ghost var op := Field(symbol, total);
      Append(ops, op);
      if !failed && range == 0 {
        range := (WORD - 1) / total;
        low := symbol * range;
      } else {
        Normalize();
        if !failed {
          NarrowField(Coder(low, range), symbol, total);
          range := range / total;
          low := low + symbol * range;
        }
      }
      ops := ops + [op];
    }

    /** One table symbol of Text: width parts of 2^16 from part lo on. */
    method TableSlice(lo: nat, width: nat)
      requires Valid() && ops != [] && 0 < width && lo + width <= 0x1_0000
      modifies this
      ensures Valid() && ops == old(ops) + [Slice(lo, width)]
      ensures failed <==> old(failed) || |BytesAfter(ops)| > limit
    {
      hide Norm, NormBytes, StateAfter, BytesAfter, Narrow;
      ghost var op := Slice(lo, width);
      Append(ops, op);
      Normalize();
      if !failed {
        NarrowSlice(Coder(low, range), lo, width);
        range := range / 0x1_0000;
        low := low + lo * range;
        range := range * width;
      }
      ops := ops + [op];
    }

    /** Emits the last bytes: at most two, and none when the interval begins at zero. */
    method Finish()
      requires Valid() && ops != []
      modifies this
      ensures ops == old(ops) && (!failed ==> output == Encoding(old(ops)))
      ensures failed <==> old(failed) || |Encoding(old(ops))| > limit
    {
      hide Norm, NormBytes, BytesAfter, StateAfter;
      Normalize();
      if failed { return; }
      ghost var c := Coder(low, range);
      assert c == Norm(StateAfter(ops));
      if low == 0 { return; }
      if remaining == 0 {
        failed := true;
      } else {
        remaining := remaining - 1;
        low := low + range - 1;
        output := output + [low / TOP % 256];
        if range < TOP {
          low := low * 256 % WORD;
          if remaining == 0 {
            failed := true;
            return;
          }
          output := output + [low / TOP % 256];
          remaining := remaining - 1;
        }
      }
    }
  }

  lemma NormUnfold(c: Coder)
    requires Good(c)
    ensures NeedsShift(c) ==>
              Good(Shifted(c)) && Norm(c) == Norm(Shifted(c)) && NormBytes(c) == [TopByte(c)] + NormBytes(Shifted(c))
    ensures !NeedsShift(c) ==> Norm(c) == c && NormBytes(c) == []
  {
    if NeedsShift(c) {
      ShiftProgress(c);
    }
  }

  lemma KeptIs(c: Coder, range: nat)
    requires c.low <= WORD && range == if SameTop(c) then c.range else (WORD - c.low) % MAX_RANGE
    ensures range == Kept(c)
  {}

  lemma ShiftedIs(c: Coder, low: nat, range: nat)
    requires low == c.low * 256 % WORD && range == Kept(c) * 256 % WORD
    ensures Coder(low, range) == Shifted(c)
  {}

  /** What one more symbol does to the specified state and bytes. */
  lemma Append(ops: seq<Op>, op: Op)
    requires MessageOk(ops) && OpOk(op) && (ops == [] ==> !op.Slice?)
    ensures MessageOk(ops + [op])
    ensures ops == [] ==> StateAfter(ops + [op]) == First(op) && BytesAfter(ops + [op]) == []
    ensures ops != [] ==> StateAfter(ops + [op]) == Narrow(Norm(StateAfter(ops)), op)
    ensures ops != [] ==> BytesAfter(ops + [op]) == BytesAfter(ops) + NormBytes(StateAfter(ops))
  {
    assert (ops + [op])[..|ops|] == ops;
  }

  lemma NarrowBit(c: Coder, b: bool, freq: nat)
    requires 0 < freq < HALF
    ensures var r := c.range / HALF;
            Narrow(c, Bit(b, freq)) == if b then Coder(c.low + freq * r, r * (HALF - freq)) else Coder(c.low, r * freq)
  {}

  lemma NarrowField(c: Coder, symbol: nat, total: nat)
    requires symbol < total < HALF
    ensures Narrow(c, Field(symbol, total)) == Coder(c.low + symbol * (c.range / total), c.range / total)
  {}

  lemma NarrowSlice(c: Coder, lo: nat, width: nat)
    requires 0 < width && lo + width <= 0x1_0000
    ensures var r := c.range / 0x1_0000; Narrow(c, Slice(lo, width)) == Coder(c.low + lo * r, r * width)
  {}

  class RangeDecoder {
    const data: seq<Byte>
    var input: nat              // index of the next unread byte
    var remaining: nat
    var code: nat
    var low: nat
    var range: nat
    ghost const ops: seq<Op>    // the symbols the data encodes
    ghost var taken: nat        // how many have been read

    /** Reads up to eight bytes of the code, zero-padded. */
    constructor (data: seq<Byte>, ghost ops: seq<Op>)
      requires ops != [] && MessageOk(ops) && data == Encoding(ops)
      ensures Reading() && this.ops == ops && taken == 0
    {
      this.data := data;
      this.ops := ops;
      low, range, taken := 0, 0, 0;
      if |data| < 8 {
        code := Window(data, 0, 8);
        remaining := 0;
        input := |data|;
      } else {
        code := Window(data, 0, 8);
        input := 8;
        remaining := |data| - 8;
      }
    }

    /** The code is the eight bytes at the position after all shifts so far, and the interval is the encoder's. */
    ghost predicate Reading()
      reads this
    {
      && ops != [] && MessageOk(ops) && taken <= |ops| && data == Encoding(ops)
      && (taken == 0 ==> range == 0 && AtByte(0))
      && (taken > 0 ==> Coder(low, range) == StateAfter(ops[..taken]) && AtByte(|BytesAfter(ops[..taken])|))
    }

    ghost predicate AtByte(k: nat)
      reads this
    {
      && code == Code(data, k) && (remaining > 0 ==> input == k + 8)
      && remaining == if k + 8 < |data| then |data| - k - 8 else 0
    }

    /** Shifts in a byte for every shift the encoder wrote one for. */
    method Normalize(ghost k: nat)
      requires Good(Coder(low, range)) && AtByte(k)
      modifies this`input, this`remaining, this`code, this`low, this`range
      ensures Coder(low, range) == Norm(old(Coder(low, range))) && AtByte(k + |NormBytes(old(Coder(low, range)))|)
    {
      hide Norm, NormBytes, Shifted, Kept, SameTop, Code;
      ghost var c0 := Coder(low, range);
      ghost var k': nat := k;
      NormUnfold(c0);
      while NeedsShift(Coder(low, range))
        invariant Good(Coder(low, range)) && Norm(Coder(low, range)) == Norm(c0)
        invariant k' + |NormBytes(Coder(low, range))| == k + |NormBytes(c0)| && AtByte(k')
        decreases Phase(Coder(low, range)), Distance(Coder(low, range))
      {
        var c := Coder(low, range);
        NormUnfold(c);
        ShiftProgress(c);
        CodeStep(data, k');
        code := code * 256 % WORD;
        if remaining > 0 {
          code := code + data[input];
          input := input + 1;
          remaining := remaining - 1;
        }
        if !SameTop(c) {
          range := (WORD - low) % MAX_RANGE;
        }
        KeptIs(c, range);
        low := low * 256 % WORD;
        range := range * 256 % WORD;
        ShiftedIs(c, low, range);
        NormUnfold(Coder(low, range));
        k' := k' + 1;
      }
      NormUnfold(Coder(low, range));
    }

    method BiasedBit(freq: nat) returns (b: bool)
      requires Reading() && taken < |ops| && ops[taken].Bit? && freq == ops[taken].freq
      modifies this
      ensures Reading() && taken == old(taken) + 1 && b == ops[old(taken)].b
    {
      hide Norm, NormBytes, BytesAfter, StateAfter, Code;
      NextSymbol(ops, taken);
      var op := ops[taken];
      if range == 0 {
        FirstSymbol(ops, taken);
        FirstDecodes(op, code);
        b := code / HALF >= freq;
        low, range := if b then freq * HALF else 0, if b then (HALF - freq) * HALF else freq * HALF;
      } else {
        AfterFirst(ops, taken);
        Normalize(|BytesAfter(ops[..taken])|);
        QuotientSelects(Coder(low, range), op, code);
        NarrowBit(Coder(low, range), op.b, freq);
        range := range / HALF;
        var x := (code - low) / range;
        if x < freq {
          range := range * freq;
          b := false;
        } else {
          low := low + freq * range;
          range := range * (HALF - freq);
          b := true;
        }
      }
      taken := taken + 1;
    }

    method Range(total: nat) returns (symbol: nat)
      requires Reading() && taken < |ops| && ops[taken].Field? && total == ops[taken].total
      modifies this
      ensures Reading() && taken == old(taken) + 1 && symbol == ops[old(taken)].symbol
    {
      hide Norm, NormBytes, BytesAfter, StateAfter, Code;
      NextSymbol(ops, taken);
      var op := ops[taken];
      if range == 0 {
        FirstSymbol(ops, taken);
        FirstDecodes(op, code);
        range := (WORD - 1) / total;
        symbol := code / range;
        low := symbol * range;
      } else {
        AfterFirst(ops, taken);
        Normalize(|BytesAfter(ops[..taken])|);
        QuotientSelects(Coder(low, range), op, code);
        NarrowField(Coder(low, range), op.symbol, total);
        range := range / total;
        symbol := (code - low) / range;
        low := low + symbol * range;
      }
      taken := taken + 1;
    }
  }

  /** Where the next symbol's interval and bytes come from. */
  lemma NextSymbol(ops: seq<Op>, t: nat)
    requires MessageOk(ops) && t < |ops|
    ensures MessageOk(ops[..t]) && MessageOk(ops[..t + 1]) && ops[..t + 1] != [] && OpOk(ops[t])
    ensures t == 0 ==> StateAfter(ops[..t + 1]) == First(ops[t]) && BytesAfter(ops[..t + 1]) == []
    ensures t > 0 ==> StateAfter(ops[..t + 1]) == Narrow(Norm(StateAfter(ops[..t])), ops[t])
    ensures t > 0 ==> BytesAfter(ops[..t + 1]) == BytesAfter(ops[..t]) + NormBytes(StateAfter(ops[..t]))
  {
    assert ops[..t + 1] == ops[..t] + [ops[t]];
    Append(ops[..t], ops[t]);
  }

  lemma FirstSymbol(ops: seq<Op>, t: nat)
    requires MessageOk(ops) && t < |ops|
    ensures t == 0 ==> Holds(First(ops[t]), Code(Encoding(ops), 0)) && !ops[t].Slice?
    ensures t > 0 ==> MessageOk(ops[..t]) && StateAfter(ops[..t]).range > 0
  {
    hide Code, Encoding;
    NextSymbol(ops, t);
    if t == 0 {
      DecoderStaysInside(ops, 1);
    }
  }

  lemma AfterFirst(ops: seq<Op>, t: nat)
    requires MessageOk(ops) && 0 < t < |ops|
    ensures MessageOk(ops[..t]) && OpOk(ops[t])
    ensures var c, k := StateAfter(ops[..t]), |BytesAfter(ops[..t])|;
            Good(c) && Holds(Narrow(Norm(c), ops[t]), Code(Encoding(ops), k + |NormBytes(c)|))
  {
    hide Code, Encoding, Norm, NormBytes, StateAfter, BytesAfter, Narrow;
    NextSymbol(ops, t);
    DecoderStaysInside(ops, t + 1);
  }
}
