/** Text coding: order-1 table symbols, the table lookup both sides use, and the uniform fallback
    (src/codec/RangeCoder.cpp). */
module TextCoder {
  import opened RangeSpec
  import opened RangeMessage
  import opened RangeCoder

  const SYMBOL_LUT_BYTES: nat := 256
  const TEXT_BIT: nat := 0xFF00_0000

  /** The static table. rows[last] holds the cumulative frequencies after symbol last, without the implied
      first 0 and last 2^16; lutLow and lutHigh bracket the lookup by the high byte of a frequency. */
  datatype Table = Table(total: nat, log2total: nat, char2index: seq<nat>, index2char: seq<nat>,
                         rows: seq<seq<nat>>, lutLow: seq<seq<nat>>, lutHigh: seq<seq<nat>>)

  ghost predicate RowOk(base: seq<nat>, total: nat) {
    && |base| == total - 1 && total >= 2 && 0 < base[0]
    && (forall j :: 0 <= j < |base| ==> base[j] < 0x1_0000)
    && (forall i, j :: 0 <= i < j < |base| ==> base[i] < base[j])
  }

  /** The entry a lookup must find: the last one not above freq, or the first. */
  ghost predicate IsEntry(base: seq<nat>, freq: nat, j: nat) {
    && j < |base| && (j > 0 ==> base[j] <= freq) && (j + 1 < |base| ==> freq < base[j + 1])
  }

  ghost predicate LutOk(base: seq<nat>, low: seq<nat>, high: seq<nat>) {
    && |low| == |high| == SYMBOL_LUT_BYTES
    && (forall b :: 0 <= b < SYMBOL_LUT_BYTES ==> low[b] <= high[b] < |base|)
    && forall freq: nat, j: nat :: freq < 0x1_0000 && IsEntry(base, freq, j) ==>
         low[freq / 256] <= j <= high[freq / 256]
  }

  /** What VerifyTableIntegrity and the table generator establish. */
  ghost predicate TableOk(tab: Table) {
    && 2 <= tab.total <= 256 && |tab.char2index| == 256 && |tab.index2char| == 256
    && (forall ch :: 0 <= ch < 256 ==> tab.char2index[ch] < tab.total)
    && (forall ch :: 0 <= ch < 256 && tab.char2index[ch] != 0 ==> tab.index2char[tab.char2index[ch]] == ch)
    && tab.char2index[0] == 0 && tab.index2char[0] == 0
    && |tab.rows| == |tab.lutLow| == |tab.lutHigh| == tab.total
    && (forall s :: 0 <= s < tab.total ==>
          RowOk(tab.rows[s], tab.total) && LutOk(tab.rows[s], tab.lutLow[s], tab.lutHigh[s]))
  }

  /** A symbol's slice of 2^16. */
  function SymbolLow(base: seq<nat>, symbol: nat): nat
    requires symbol <= |base|
  {
    if symbol == 0 then 0 else base[symbol - 1]
  }

  function SymbolHigh(base: seq<nat>, symbol: nat): nat
    requires symbol <= |base|
  {
    if symbol == |base| then 0x1_0000 else base[symbol]
  }

  /** The encoder's lookup: where the symbol's slice begins and how wide it is. */
  method EncodeSymbol(tab: Table, last: nat, ch: nat) returns (symbol: nat, lo: nat, width: nat)
    requires TableOk(tab) && last < tab.total && ch < 256
    ensures symbol == tab.char2index[ch] < tab.total && lo == SymbolLow(tab.rows[last], symbol)
    ensures 0 < width && lo + width == SymbolHigh(tab.rows[last], symbol) <= 0x1_0000
    ensures lo == 0 <==> symbol == 0
  {
    hide LutOk;
    symbol := tab.char2index[ch];
    var base := tab.rows[last];
    assert RowOk(base, tab.total);
    if symbol != 0 {
      lo := base[symbol - 1];
      if symbol == tab.total - 1 {
        width := 0x1_0000 - lo;
      } else {
        width := base[symbol] - lo;
      }
    } else {
      lo, width := 0, base[0];
    }
  }

  /** The decoder's lookup: a binary search between the bracketing entries finds the one symbol whose slice
      has the frequency. */
  method DecodeSymbol(tab: Table, last: nat, freq: nat) returns (symbol: nat, lo: nat, width: nat)
    requires TableOk(tab) && last < tab.total && freq < 0x1_0000
    ensures symbol < tab.total && lo == SymbolLow(tab.rows[last], symbol)
    ensures lo + width == SymbolHigh(tab.rows[last], symbol)
    ensures lo <= freq < lo + width
  {
    var base := tab.rows[last];
    assert RowOk(base, tab.total) && LutOk(base, tab.lutLow[last], tab.lutHigh[last]);
    ghost var entry := FindEntry(base, freq);
    var below, above := tab.lutLow[last][freq / 256], tab.lutHigh[last][freq / 256];
    while below != above
      invariant 0 <= below <= entry <= above < |base|
      decreases above - below
    {
      var pivot := (above - below + 1) / 2 + below;
      if freq >= base[pivot] {
        below := pivot;
      } else {
        above := pivot - 1;
      }
    }
    if below != 0 || freq >= base[0] {
      lo := base[below];
      symbol := below + 1;
      if symbol == tab.total - 1 {
        width := 0x1_0000 - lo;
      } else {
        width := base[symbol] - lo;
      }
    } else {
      symbol, lo, width := 0, 0, base[0];
    }
  }

  lemma FindEntry(base: seq<nat>, freq: nat) returns (j: nat)
    requires |base| > 0 && forall i, j :: 0 <= i < j < |base| ==> base[i] < base[j]
    ensures IsEntry(base, freq, j)
  {
    j := |base| - 1;
    while j > 0 && base[j] > freq
      invariant j < |base| && (j + 1 < |base| ==> freq < base[j + 1])
    {
      j := j - 1;
    }
  }

  /** Slices do not overlap: a frequency belongs to one symbol. */
  lemma OneSymbol(base: seq<nat>, total: nat, freq: nat, s: nat, s': nat)
    requires RowOk(base, total) && s <= |base| && s' <= |base|
    requires SymbolLow(base, s) <= freq < SymbolHigh(base, s) && SymbolLow(base, s') <= freq < SymbolHigh(base, s')
    ensures s == s'
  {
    SlicesApart(base, total);
  }

  lemma SlicesApart(base: seq<nat>, total: nat)
    requires RowOk(base, total)
    ensures forall s, s' :: 0 <= s < s' <= |base| ==> SymbolHigh(base, s) <= SymbolLow(base, s')
  {}

  // ---- Text ----

  /** The message's characters, none of them NUL; the terminator is coded after them. Every one has a symbol. */
  ghost predicate TextOk(tab: Table, msg: seq<nat>) {
    TableOk(tab) && forall i :: 0 <= i < |msg| ==> 0 < msg[i] < 256 && tab.char2index[msg[i]] != 0
  }

  function CharAt(msg: seq<nat>, i: nat): nat { if i < |msg| then msg[i] else 0 }

  ghost function SymbolAt(tab: Table, msg: seq<nat>, i: nat): (s: nat)
    requires TextOk(tab, msg)
    ensures s < tab.total && (i < |msg| ==> s != 0 && tab.index2char[s] == msg[i]) && (i >= |msg| ==> s == 0)
  {
    tab.char2index[CharAt(msg, i)]
  }

  /** The slice of the i-th symbol after the one before it. */
  ghost function TableOp(tab: Table, msg: seq<nat>, i: nat): (op: Op)
    requires TextOk(tab, msg)
    ensures op.Slice? && OpOk(op)
  {
    var s, last := SymbolAt(tab, msg, i), if i == 0 then 0 else SymbolAt(tab, msg, i - 1);
    var base := tab.rows[last];
    assert RowOk(base, tab.total);
    Slice(SymbolLow(base, s), SymbolHigh(base, s) - SymbolLow(base, s))
  }

  ghost function UniformOp(tab: Table, msg: seq<nat>, i: nat): (op: Op)
    requires TextOk(tab, msg)
    ensures OpOk(op)
  {
    Field(SymbolAt(tab, msg, i), tab.total)
  }

  ghost function TableOps(tab: Table, msg: seq<nat>, k: nat): (ops: seq<Op>)
    requires TextOk(tab, msg)
    ensures |ops| == k && forall i :: 0 <= i < k ==> ops[i] == TableOp(tab, msg, i)
  {
    if k == 0 then [] else TableOps(tab, msg, k - 1) + [TableOp(tab, msg, k - 1)]
  }

  ghost function UniformOps(tab: Table, msg: seq<nat>, k: nat): (ops: seq<Op>)
    requires TextOk(tab, msg)
    ensures |ops| == k && forall i :: 0 <= i < k ==> ops[i] == UniformOp(tab, msg, i)
  {
    if k == 0 then [] else UniformOps(tab, msg, k - 1) + [UniformOp(tab, msg, k - 1)]
  }

  /** The symbols Text codes: which model, then the characters and the terminator in it. */
  ghost function TextOps(tab: Table, msg: seq<nat>, uniform: bool): seq<Op>
    requires TextOk(tab, msg)
  {
    [Bit(uniform, TEXT_BIT)] + if uniform then UniformOps(tab, msg, |msg| + 1) else TableOps(tab, msg, |msg| + 1)
  }

  /** Encodes with the order-1 table. */
  method EncodeTable(enc: RangeEncoder, tab: Table, msg: seq<nat>)
    requires TextOk(tab, msg) && enc.Valid()
    modifies enc
    ensures enc.Valid() && enc.ops == old(enc.ops) + TextOps(tab, msg, false)
    ensures enc.failed <==> old(enc.failed) || |BytesAfter(enc.ops)| > enc.limit
  {
    hide LutOk, BytesAfter, StateAfter;
    enc.BiasedBit(false, TEXT_BIT);
    var last, i, more := 0, 0, true;
    while more
      invariant i <= |msg| + 1 && (more <==> i <= |msg|)
      invariant last == (if i == 0 then 0 else SymbolAt(tab, msg, i - 1))
      invariant enc.Valid() && enc.ops == old(enc.ops) + [Bit(false, TEXT_BIT)] + TableOps(tab, msg, i)
      invariant enc.failed <==> old(enc.failed) || |BytesAfter(enc.ops)| > enc.limit
      decreases |msg| + 1 - i
    {
      last, more := EncodeNext(enc, tab, msg, i, last);
      TableOpsNext(tab, msg, i);
      i := i + 1;
    }
    assert enc.ops == old(enc.ops) + TextOps(tab, msg, false);
  }

  lemma TableOpsNext(tab: Table, msg: seq<nat>, i: nat)
    requires TextOk(tab, msg)
    ensures TableOps(tab, msg, i + 1) == TableOps(tab, msg, i) + [TableOp(tab, msg, i)]
  {}

  /** Encodes character i of the message, or its end, after the previous symbol. */
  method EncodeNext(enc: RangeEncoder, tab: Table, msg: seq<nat>, i: nat, last: nat) returns (symbol: nat, more: bool)
    requires TextOk(tab, msg) && enc.Valid() && enc.ops != [] && i <= |msg|
    requires last == (if i == 0 then 0 else SymbolAt(tab, msg, i - 1))
    modifies enc
    ensures enc.Valid() && enc.ops == old(enc.ops) + [TableOp(tab, msg, i)]
    ensures symbol == SymbolAt(tab, msg, i) && (more <==> i < |msg|)
    ensures enc.failed <==> old(enc.failed) || |BytesAfter(enc.ops)| > enc.limit
    ensures old(|BytesAfter(enc.ops)|) <= |BytesAfter(enc.ops)|
  {
    hide LutOk, BytesAfter, StateAfter;
    ghost var ops0 := enc.ops;
    var lo, width;
    symbol, lo, width := EncodeSymbol(tab, last, CharAt(msg, i));
    enc.TableSlice(lo, width);
    BytesGrow(ops0, Slice(lo, width));
    more := lo != 0;
  }

  lemma BytesGrow(ops: seq<Op>, op: Op)
    requires ops != [] && MessageOk(ops) && OpOk(op)
    ensures MessageOk(ops + [op]) && |BytesAfter(ops + [op])| >= |BytesAfter(ops)|
  {
    hide NormBytes, Norm;
    Append(ops, op);
  }

  /** Encodes every character with equal likelihood. */
  method EncodeUniform(enc: RangeEncoder, tab: Table, msg: seq<nat>)
    requires TextOk(tab, msg) && enc.Valid()
    modifies enc
    ensures enc.Valid() && enc.ops == old(enc.ops) + TextOps(tab, msg, true)
    ensures enc.failed <==> old(enc.failed) || |BytesAfter(enc.ops)| > enc.limit
  {
    hide LutOk, BytesAfter, StateAfter;
    enc.BiasedBit(true, TEXT_BIT);
    var i, more := 0, true;
    while more
      invariant i <= |msg| + 1 && (more <==> i <= |msg|)
      invariant enc.Valid() && enc.ops == old(enc.ops) + [Bit(true, TEXT_BIT)] + UniformOps(tab, msg, i)
      invariant enc.failed <==> old(enc.failed) || |BytesAfter(enc.ops)| > enc.limit
      decreases |msg| + 1 - i
    {
      var ch := CharAt(msg, i);
      ghost var ops0 := enc.ops;
      ghost var s := SymbolAt(tab, msg, i);
      enc.Range(tab.char2index[ch], tab.total);
      BytesGrow(ops0, Field(tab.char2index[ch], tab.total));
      assert UniformOps(tab, msg, i + 1) == UniformOps(tab, msg, i) + [UniformOp(tab, msg, i)];
      i := i + 1;
      more := ch != 0;
    }
    assert enc.ops == old(enc.ops) + TextOps(tab, msg, true);
  }

  /** The bytes written for the symbols coded so far. */
  ghost function Written(ops: seq<Op>): nat
    requires MessageOk(ops)
  {
    if ops == [] then 0 else |BytesAfter(ops)|
  }

  /** The bytes the table's encoding takes of the room there is: what it writes, or all that is left if that is less,
      and none once the encoder has failed. */
  ghost function Spent(ops: seq<Op>, tab: Table, msg: seq<nat>, failed: bool, limit: nat): int
    requires TextOk(tab, msg) && MessageOk(ops)
  {
    TextMessage(ops, tab, msg, false);
    var whole := |BytesAfter(ops + TextOps(tab, msg, false))|;
    if failed then 0 else (if whole <= limit then whole else limit) - Written(ops)
  }

  lemma TextMessage(ops: seq<Op>, tab: Table, msg: seq<nat>, uniform: bool)
    requires TextOk(tab, msg) && MessageOk(ops)
    ensures MessageOk(ops + TextOps(tab, msg, uniform)) && TextOps(tab, msg, uniform) != []
  {
    hide TableOk;
  }

  /** Text: the order-1 model, or, exactly when that spent as many bytes as the uniform one is estimated to take,
      everything over again uniformly. */
  method EncodeText(enc: RangeEncoder, tab: Table, msg: seq<nat>)
    requires TextOk(tab, msg) && enc.Valid()
    modifies enc
    ensures var uniform := old(Spent(enc.ops, tab, msg, enc.failed, enc.limit)) >= (|msg| + 1) * tab.log2total / 0x8000;
            enc.Valid() && enc.ops == old(enc.ops) + TextOps(tab, msg, uniform)
    ensures enc.failed <==> old(enc.failed) || |BytesAfter(enc.ops)| > enc.limit
  {
    hide BytesAfter, StateAfter, TableOk;
    TextMessage(enc.ops, tab, msg, false);
    var output, failed, remaining, low, range := enc.output, enc.failed, enc.remaining, enc.low, enc.range;
    EncodeTable(enc, tab, msg);
    if remaining - enc.remaining >= (|msg| + 1) * tab.log2total / 0x8000 {
      enc.output, enc.failed, enc.remaining, enc.low, enc.range := output, failed, remaining, low, range;
      enc.ops := old(enc.ops);
      EncodeUniform(enc, tab, msg);
      assert enc.ops == old(enc.ops) + TextOps(tab, msg, true);
    } else {
      assert enc.ops == old(enc.ops) + TextOps(tab, msg, false);
    }
  }

  /** Reads one slice symbol: the 16-bit frequency the code falls on, looked up, and the interval narrowed to it. */
  method DecodeSlice(dec: RangeDecoder, tab: Table, last: nat, ghost msg: seq<nat>, ghost i: nat) returns (symbol: nat)
    requires TextOk(tab, msg) && dec.Reading() && 0 < dec.taken < |dec.ops|
    requires dec.ops[dec.taken] == TableOp(tab, msg, i)
    requires last == if i == 0 then 0 else SymbolAt(tab, msg, i - 1)
    modifies dec
    ensures dec.Reading() && dec.taken == old(dec.taken) + 1 && symbol == SymbolAt(tab, msg, i)
  {
    hide Norm, NormBytes, BytesAfter, StateAfter, Code, LutOk, TableOk, SymbolLow, SymbolHigh, SymbolAt, Narrow, RowOk;
    ghost var ops, t := dec.ops, dec.taken;
    TableRow(tab, last);
    NextSymbol(ops, t);
    AfterFirst(ops, t);
    dec.Normalize(|BytesAfter(ops[..t])|);
    QuotientSelects(Coder(dec.low, dec.range), ops[t], dec.code);
    dec.range := dec.range / 0x1_0000;
    var x := (dec.code - dec.low) / dec.range;
    var lo, width;
    symbol, lo, width := DecodeSymbol(tab, last, x);
    SymbolIs(tab, msg, i, last, x, symbol);
    NarrowSlice(Norm(StateAfter(ops[..t])), lo, width);
    dec.low := dec.low + lo * dec.range;
    dec.range := dec.range * width;
    dec.taken := dec.taken + 1;
  }

  lemma TableRow(tab: Table, last: nat)
    requires TableOk(tab) && last < tab.total
    ensures |tab.rows| == tab.total >= 2 && |tab.rows[last]| == tab.total - 1
  {
    hide LutOk;
  }

  // The symbol found is the one that was encoded: its slice is the only one with this frequency.
  lemma SymbolIs(tab: Table, msg: seq<nat>, i: nat, last: nat, x: nat, symbol: nat)
    requires TextOk(tab, msg) && last == (if i == 0 then 0 else SymbolAt(tab, msg, i - 1)) && symbol < tab.total
    requires Begin(TableOp(tab, msg, i)) <= x < Begin(TableOp(tab, msg, i)) + Count(TableOp(tab, msg, i))
    requires |tab.rows[last]| == tab.total - 1
    requires SymbolLow(tab.rows[last], symbol) <= x < SymbolHigh(tab.rows[last], symbol)
    ensures symbol == SymbolAt(tab, msg, i)
    ensures TableOp(tab, msg, i)
              == Slice(SymbolLow(tab.rows[last], symbol),
                       SymbolHigh(tab.rows[last], symbol) - SymbolLow(tab.rows[last], symbol))
  {
    var base := tab.rows[last];
    assert RowOk(base, tab.total);
    OneSymbol(base, tab.total, x, symbol, SymbolAt(tab, msg, i));
  }

  /** The coming symbols are a text's. */
  ghost predicate TextNext(dec: RangeDecoder, tab: Table, msg: seq<nat>, uniform: bool)
    reads dec
  {
    && TextOk(tab, msg) && dec.Reading() && dec.taken + |TextOps(tab, msg, uniform)| <= |dec.ops|
    && dec.ops[dec.taken..dec.taken + |TextOps(tab, msg, uniform)|] == TextOps(tab, msg, uniform)
  }

  /** How many of the characters the buffer has room for, beside the terminator. */
  function Fitting(msg: seq<nat>, bufferSize: nat): (k: nat)
    requires bufferSize > 0
    ensures k <= |msg|
  {
    if |msg| < bufferSize then |msg| else bufferSize - 1
  }

  /** Text: reads back exactly the characters that were encoded, as far as the buffer goes, whichever model the encoder
      chose. The terminator is read only if there is room for it to be looked for. */
  method DecodeText(dec: RangeDecoder, tab: Table, bufferSize: nat, ghost msg: seq<nat>, ghost uniform: bool)
    returns (text: seq<nat>)
    requires TextNext(dec, tab, msg, uniform) && bufferSize > 0
    modifies dec
    ensures text == msg[..Fitting(msg, bufferSize)] && dec.Reading()
    ensures dec.taken == old(dec.taken) + 1 + Fitting(msg, bufferSize) + if |msg| + 2 <= bufferSize then 1 else 0
  {
    hide Norm, NormBytes, BytesAfter, StateAfter, Code, LutOk, TableOk, RangeDecoder.Reading;
    ghost var t0, ops := dec.taken, dec.ops;
    TextAt(ops, t0, tab, msg, uniform);
    var b := dec.BiasedBit(TEXT_BIT);
    text := [];
    if b {
      text := DecodeUniform(dec, tab, bufferSize, msg, t0);
    } else {
      text := DecodeTable(dec, tab, bufferSize, msg, t0);
    }
  }

  ghost predicate TextAhead(ops: seq<Op>, t: nat, tab: Table, msg: seq<nat>, uniform: bool)
    requires TextOk(tab, msg)
  {
    && t + |msg| + 2 <= |ops|
    && forall i :: 0 <= i <= |msg| ==> ops[t + 1 + i] == if uniform then UniformOp(tab, msg, i)
                                                         else TableOp(tab, msg, i)
  }

  /** The characters after the model bit, each of equal likelihood. */
  method DecodeUniform(dec: RangeDecoder, tab: Table, bufferSize: nat, ghost msg: seq<nat>, ghost t0: nat)
    returns (text: seq<nat>)
    requires TextOk(tab, msg) && dec.Reading() && dec.taken == t0 + 1
    requires TextAhead(dec.ops, t0, tab, msg, true) && bufferSize > 0
    modifies dec
    ensures text == msg[..Fitting(msg, bufferSize)] && dec.Reading()
    ensures dec.taken == t0 + 1 + Fitting(msg, bufferSize) + if |msg| + 2 <= bufferSize then 1 else 0
  {
    hide Norm, NormBytes, BytesAfter, StateAfter, Code, LutOk, TableOk, RangeDecoder.Reading;
    text := [];
    var left, more := bufferSize - 1, true;
    while left > 0 && more
      invariant |text| <= |msg| && text == msg[..|text|] && left == bufferSize - 1 - |text|
      invariant dec.Reading() && dec.taken == t0 + 1 + |text| + (if more then 0 else 1)
      invariant !more ==> |text| == |msg| && left > 0
      decreases left, more
    {
      ghost var s := SymbolAt(tab, msg, |text|);
      assert dec.ops[t0 + 1 + |text|] == UniformOp(tab, msg, |text|);
      var symbol := dec.Range(tab.total);
      var ch := CharOf(tab, symbol, msg, |text|);
      if ch == 0 {
        more := false;
      } else {
        text := text + [ch];
        left := left - 1;
      }
    }
  }

  /** The characters after the model bit, by the order-1 table. */
  method DecodeTable(dec: RangeDecoder, tab: Table, bufferSize: nat, ghost msg: seq<nat>, ghost t0: nat)
    returns (text: seq<nat>)
    requires TextOk(tab, msg) && dec.Reading() && dec.taken == t0 + 1
    requires TextAhead(dec.ops, t0, tab, msg, false) && bufferSize > 0
    modifies dec
    ensures text == msg[..Fitting(msg, bufferSize)] && dec.Reading()
    ensures dec.taken == t0 + 1 + Fitting(msg, bufferSize) + if |msg| + 2 <= bufferSize then 1 else 0
  {
    hide Norm, NormBytes, BytesAfter, StateAfter, Code, LutOk, TableOk, RangeDecoder.Reading;
    text := [];
    var left, last, more := bufferSize - 1, 0, true;
    while left > 0 && more
      invariant |text| <= |msg| && text == msg[..|text|] && left == bufferSize - 1 - |text|
      invariant last == (if |text| == 0 then 0 else SymbolAt(tab, msg, |text| - 1)) || !more
      invariant dec.Reading() && dec.taken == t0 + 1 + |text| + (if more then 0 else 1)
      invariant !more ==> |text| == |msg| && left > 0
      decreases left, more
    {
      ghost var s := SymbolAt(tab, msg, |text|);
      assert dec.ops[t0 + 1 + |text|] == TableOp(tab, msg, |text|);
      var symbol := DecodeSlice(dec, tab, last, msg, |text|);
      var ch := CharOf(tab, symbol, msg, |text|);
      if symbol == 0 {
        more := false;
      } else {
        text := text + [ch];
        last := symbol;
        left := left - 1;
      }
    }
  }

  /** index2char, on a symbol of the message. */
  method CharOf(tab: Table, symbol: nat, ghost msg: seq<nat>, ghost i: nat) returns (ch: nat)
    requires TextOk(tab, msg) && symbol == SymbolAt(tab, msg, i)
    ensures i < |msg| ==> ch == msg[i] && ch != 0 && symbol != 0
    ensures i >= |msg| ==> ch == 0 && symbol == 0
  {
    hide LutOk;
    ghost var s := SymbolAt(tab, msg, i);
    ch := tab.index2char[symbol];
  }

  lemma TextAt(ops: seq<Op>, t: nat, tab: Table, msg: seq<nat>, uniform: bool)
    requires TextOk(tab, msg) && t + |TextOps(tab, msg, uniform)| <= |ops|
    requires ops[t..t + |TextOps(tab, msg, uniform)|] == TextOps(tab, msg, uniform)
    ensures |TextOps(tab, msg, uniform)| == |msg| + 2 && ops[t] == Bit(uniform, TEXT_BIT)
    ensures forall i :: 0 <= i <= |msg| ==> ops[t + 1 + i] == if uniform then UniformOp(tab, msg, i)
                                                              else TableOp(tab, msg, i)
  {
    hide TableOp, UniformOp, TableOk;
    var text := TextOps(tab, msg, uniform);
    assert text[0] == ops[t];
    forall i | 0 <= i <= |msg|
      ensures ops[t + 1 + i] == if uniform then UniformOp(tab, msg, i) else TableOp(tab, msg, i)
    {
      assert ops[t..t + |text|][i + 1] == ops[t + 1 + i];
      assert text[i + 1] == if uniform then UniformOps(tab, msg, |msg| + 1)[i] else TableOps(tab, msg, |msg| + 1)[i];
    }
  }
}
