/** The carryless range coder as arithmetic on intervals (src/codec/RangeCoder.cpp): what one normalisation
    does, and why a decoder that is handed the emitted bytes stays inside every interval. */
module RangeSpec {
  const WORD: nat := 0x1_0000_0000_0000_0000
  const TOP: nat := 0x100_0000_0000_0000
  const MAX_RANGE: nat := 0x1_0000_0000_0000

  type Byte = b: nat | b < 256

  /** low and range, as 64-bit values. */
  datatype Coder = Coder(low: nat, range: nat)

  /** The interval [low, low + range) is not empty and ends no later than 2^64. */
  predicate Good(c: Coder) {
    0 < c.range < WORD && c.low + c.range <= WORD
  }

  /** (low ^ (low + range)) < Top, where the sum wraps at 2^64: both have the same top byte. */
  predicate SameTop(c: Coder) {
    c.low / TOP == (c.low + c.range) % WORD / TOP
  }

  predicate NeedsShift(c: Coder) {
    SameTop(c) || c.range < MAX_RANGE
  }

  /** The range a shift keeps: when only smallness forces it, the part up to the next multiple of 2^48. */
  function Kept(c: Coder): nat {
    if SameTop(c) then c.range else (WORD - c.low) % MAX_RANGE
  }

  /** Both words shifted left a byte; what falls off the top is gone. */
  function Shifted(c: Coder): Coder {
    Coder(c.low * 256 % WORD, Kept(c) * 256 % WORD)
  }

  function TopByte(c: Coder): Byte {
    c.low / TOP % 256
  }

  /** x is in the interval. */
  predicate Holds(c: Coder, x: nat) {
    c.low <= x < c.low + c.range
  }

  /** A shift is sound and loses nothing it could keep: the new interval is good, and it holds exactly the values that
      give one the old interval held when the emitted byte is put in front of their high seven bytes. */
  lemma ShiftSound(c: Coder, y: nat)
    requires Good(c) && NeedsShift(c)
    ensures Good(Shifted(c)) && TopByte(c) == c.low / TOP
    ensures Holds(Shifted(c), y) <==> y < WORD && Holds(c, c.low / TOP * TOP + y / 256)
  {
    var d, m := c.low / TOP, c.low % TOP;
    assert c.low == d * TOP + m && d < 256;
    assert c.low * 256 % WORD == m * 256 by {
      assert c.low * 256 == d * WORD + m * 256;
      ModIs(d, m * 256);
    }
    if SameTop(c) {
      SameTopShift(c, d, m);
    } else {
      TruncatedShift(c, d, m);
    }
    KeptInside(c, d, m, Kept(c), y);
  }

  lemma ModIs(q: nat, r: nat)
    requires r < WORD
    ensures (q * WORD + r) % WORD == r
  {}

  // What is kept ends at the next multiple of 2^56 or before.
  lemma SameTopShift(c: Coder, d: nat, m: nat)
    requires Good(c) && SameTop(c) && d == c.low / TOP && m == c.low % TOP
    ensures if c.low + c.range == WORD then d == 0 && 0 < m && Shifted(c).range == WORD - m * 256
            else m + c.range < TOP && Shifted(c).range == c.range * 256
  {
    var sum := c.low + c.range;
    if sum == WORD {
      assert c.range * 256 == 255 * WORD + (WORD - m * 256);
      ModIs(255, WORD - m * 256);
    } else {
      assert sum % WORD == sum;
      assert sum / TOP == d && c.low == d * TOP + m;
      assert sum < d * TOP + TOP;
      assert c.range * 256 < WORD;
    }
  }

  lemma TruncatedShift(c: Coder, d: nat, m: nat)
    requires Good(c) && !SameTop(c) && c.range < MAX_RANGE && d == c.low / TOP && m == c.low % TOP
    ensures Kept(c) == TOP - m && 0 < TOP - m <= c.range && Shifted(c).range == (TOP - m) * 256
  {
    var sum := c.low + c.range;
    assert c.low == d * TOP + m && d < 256;
    assert sum / TOP >= d && (sum < WORD ==> sum % WORD == sum);
    assert sum >= (d + 1) * TOP;
    var gap := TOP - m;
    assert gap <= c.range < MAX_RANGE && gap > 0;
    assert WORD - c.low == (255 - d) * TOP + gap;
    GapIs(255 - d, gap);
  }

  lemma GapIs(q: nat, gap: nat)
    requires gap < MAX_RANGE
    ensures (q * TOP + gap) % MAX_RANGE == gap
  {
    assert q * TOP + gap == (q * 256) * MAX_RANGE + gap;
    var k := q * 256;
    assert (k * MAX_RANGE + gap) % MAX_RANGE == gap;
  }

  lemma KeptInside(c: Coder, d: nat, m: nat, kept: nat, y: nat)
    requires Good(c) && d == c.low / TOP && m == c.low % TOP && c.low * 256 % WORD == m * 256
    requires Shifted(c).low == m * 256
    requires if c.low + c.range == WORD && SameTop(c) then d == 0 && 0 < m && Shifted(c).range == WORD - m * 256
             else m + kept <= TOP && 0 < kept <= c.range && Shifted(c).range == kept * 256
    requires kept == Kept(c) && (c.low + c.range < WORD || !SameTop(c) ==> kept == c.range || m + kept == TOP)
    ensures Good(Shifted(c))
    ensures Holds(Shifted(c), y) <==> y < WORD && Holds(c, d * TOP + y / 256)
  {
    assert c.low == d * TOP + m;
  }

  // ---- Normalisation ----

  // How far a coder is from needing no shift: intervals that end before 2^64 grow; one that ends there first
  // moves up, then grows.
  function Phase(c: Coder): nat {
    if c.low + c.range != WORD then 2 else if c.low < TOP then 1 else 0
  }

  lemma ShiftProgress(c: Coder)
    requires Good(c) && NeedsShift(c)
    ensures Good(Shifted(c))
    ensures Phase(Shifted(c)) < Phase(c) || (Phase(Shifted(c)) == Phase(c) && Distance(Shifted(c)) < Distance(c))
  {
    ShiftSound(c, 0);
    var d, m := c.low / TOP, c.low % TOP;
    assert c.low == d * TOP + m;
    assert c.low * 256 % WORD == m * 256 by {
      assert c.low * 256 == d * WORD + m * 256;
      ModIs(d, m * 256);
    }
    if SameTop(c) {
      SameTopShift(c, d, m);
    } else {
      TruncatedShift(c, d, m);
    }
  }

  function Distance(c: Coder): nat {
    if Phase(c) == 1 then (if c.low < WORD then WORD - c.low else 0) else (if c.range < WORD then WORD - c.range else 0)
  }

  /** The coder after Normalize, and the bytes Normalize writes. */
  function Norm(c: Coder): (n: Coder)
    requires Good(c)
    ensures Good(n) && !NeedsShift(n) && n.range >= MAX_RANGE
    decreases Phase(c), Distance(c)
  {
    if !NeedsShift(c) then c else ShiftProgress(c); Norm(Shifted(c))
  }

  function NormBytes(c: Coder): seq<Byte>
    requires Good(c)
    decreases Phase(c), Distance(c)
  {
    if !NeedsShift(c) then [] else ShiftProgress(c); [TopByte(c)] + NormBytes(Shifted(c))
  }

  // ---- The decoder's view of the bytes ----

  /** Byte i of the message, zero past its end. */
  function ByteAt(data: seq<Byte>, i: nat): Byte { if i < |data| then data[i] else 0 }

  function Power256(k: nat): (r: nat)
    ensures r >= 1
  {
    if k == 0 then 1 else 256 * Power256(k - 1)
  }

  /** The number bytes i..i+k-1 spell, big end first. */
  function Window(data: seq<Byte>, i: nat, k: nat): (v: nat)
    ensures v < Power256(k)
  {
    if k == 0 then 0 else Window(data, i, k - 1) * 256 + ByteAt(data, i + k - 1)
  }

  /** The 64-bit code at position i. */
  function Code(data: seq<Byte>, i: nat): (v: nat)
    ensures v < WORD
  {
    assert Power256(8) == WORD by { EightBytes(); }
    Window(data, i, 8)
  }

  lemma EightBytes()
    ensures Power256(8) == WORD && Power256(7) == TOP
  {
    assert Power256(2) == 0x1_0000;
    assert Power256(4) == 0x1_0000_0000;
    assert Power256(6) == 0x1_0000_0000_0000;
    assert Power256(7) == TOP;
  }

  lemma {:induction false} WindowFront(data: seq<Byte>, i: nat, k: nat)
    ensures Window(data, i, k + 1) == ByteAt(data, i) * Power256(k) + Window(data, i + 1, k)
  {
    if k > 0 {
      WindowFront(data, i, k - 1);
      var b, p := ByteAt(data, i), Power256(k - 1);
      assert b * p * 256 == b * (256 * p);
    }
  }

  /** Moving one byte on: the top byte leaves, the next byte enters at the bottom. */
  lemma CodeStep(data: seq<Byte>, i: nat)
    ensures Code(data, i) == ByteAt(data, i) * TOP + Code(data, i + 1) / 256
    ensures Code(data, i + 1) == Code(data, i) * 256 % WORD + ByteAt(data, i + 8)
  {
    EightBytes();
    WindowFront(data, i, 7);
    var seven := Window(data, i + 1, 7);
    assert Code(data, i + 1) == seven * 256 + ByteAt(data, i + 8);
    assert Code(data, i) * 256 == ByteAt(data, i) * WORD + seven * 256;
    ModIs(ByteAt(data, i), seven * 256);
  }

  /** The message continues with these bytes at position i. */
  ghost predicate HasBytes(data: seq<Byte>, i: nat, bytes: seq<Byte>) {
    forall j :: 0 <= j < |bytes| ==> ByteAt(data, i + j) == bytes[j]
  }

  /** If the normalised coder holds the code where normalisation's bytes end, the coder before it held the code
      where they began. */
  lemma {:induction false} NormHolds(c: Coder, data: seq<Byte>, i: nat)
    requires Good(c) && HasBytes(data, i, NormBytes(c))
    requires Holds(Norm(c), Code(data, i + |NormBytes(c)|))
    ensures Holds(c, Code(data, i))
    decreases Phase(c), Distance(c)
  {
    hide Shifted, TopByte, Holds, Code, NeedsShift;
    if NeedsShift(c) {
      ShiftProgress(c);
      var rest := NormBytes(Shifted(c));
      assert NormBytes(c) == [TopByte(c)] + rest;
      forall j | 0 <= j < |rest| ensures ByteAt(data, i + 1 + j) == rest[j] {
        assert NormBytes(c)[j + 1] == rest[j];
        assert ByteAt(data, i + (j + 1)) == NormBytes(c)[j + 1];
      }
      NormHolds(Shifted(c), data, i + 1);
      ShiftSound(c, Code(data, i + 1));
      CodeStep(data, i);
      assert ByteAt(data, i + 0) == NormBytes(c)[0];
    }
  }
}
