/** Counter reconstruction and the anti-replay window of a tunnel session (_attic_/TunnelSession.cpp). */
module ReplayWindow {
  import opened Words

  const FULL: nat := 0x1_0000_0000_0000_0000   // 2^64
  const U32: nat := 0x1_0000_0000
  const IV_MSB: nat := 0x100_0000              // 2^24
  const BITMAP_BITS: nat := 1024
  const BITMAP_WORDS: nat := 16

  /** x & IV_MSB: bit 24 of a 32-bit value, in place. */
  function MsbOf(x: nat): nat { x / IV_MSB % 2 * IV_MSB }

  /** The source's expression, in its own widths: 32-bit for the differences, 64-bit for the sum. */
  function ReconstructIV(last: nat, newLow: nat): nat
    requires last < FULL && newLow < IV_MSB
  {
    var diff := (newLow + U32 - last % IV_MSB) % U32;
    (last - last % IV_MSB + newLow + FULL - MsbOf((IV_MSB / 2 + U32 - diff % IV_MSB) % U32) + MsbOf(diff)) % FULL
  }

  /** The counter nearest to the last one with the given low bits: at most 2^23 ahead, less than 2^23 behind. */
  function Nearest(last: nat, newLow: nat): int
    requires newLow < IV_MSB
  {
    var d := (newLow + IV_MSB - last % IV_MSB) % IV_MSB;
    if d > IV_MSB / 2 then d - IV_MSB else d
  }

  lemma MsbCases(x: nat)
    requires x < U32
    ensures (x < IV_MSB ==> MsbOf(x) == 0) && (x >= U32 - IV_MSB ==> MsbOf(x) == IV_MSB)
  {}

  lemma Reconstructs(last: nat, newLow: nat)
    requires last < FULL && newLow < IV_MSB
    ensures ReconstructIV(last, newLow) == (last + Nearest(last, newLow)) % FULL
    ensures -(IV_MSB / 2) < Nearest(last, newLow) <= IV_MSB / 2
  {
    var lowBits := last % IV_MSB;
    var diff := (newLow + U32 - lowBits) % U32;
    MsbCases(diff);
    if newLow >= lowBits {
      assert diff == newLow - lowBits && diff % IV_MSB == diff;
    } else {
      assert diff == U32 + newLow - lowBits;
      assert diff % IV_MSB == IV_MSB + newLow - lowBits by {
        assert U32 == 256 * IV_MSB;
        assert diff == 255 * IV_MSB + (IV_MSB + newLow - lowBits);
      }
    }
    var d := diff % IV_MSB;
    var back := (IV_MSB / 2 + U32 - d) % U32;
    MsbCases(back);
    WrapOnce(last, Nearest(last, newLow));
  }

  lemma WrapOnce(last: nat, d: int)
    ensures (last + d + FULL) % FULL == (last + d) % FULL
  {}

  /** Every counter within 2^23 of the last one is recovered from its low 24 bits. */
  lemma ReconstructionExact(last: nat, iv: nat)
    requires last < FULL && iv < FULL && last - IV_MSB / 2 < iv <= last + IV_MSB / 2
    ensures ReconstructIV(last, iv % IV_MSB) == iv
  {
    Reconstructs(last, iv % IV_MSB);
    LowDifference(last, iv);
  }

  lemma LowDifference(last: nat, iv: nat)
    requires last - IV_MSB / 2 < iv <= last + IV_MSB / 2
    ensures last + Nearest(last, iv % IV_MSB) == iv
  {
    var a, b := last / IV_MSB, iv / IV_MSB;
    assert last == a * IV_MSB + last % IV_MSB && iv == b * IV_MSB + iv % IV_MSB;
    assert a - 1 <= b <= a + 1;
  }

  // ---- The bitmap ----

  function Bit(map': seq<Word>, k: nat): bool
    requires |map'| == BITMAP_WORDS && k < BITMAP_BITS
  {
    map'[k / 64][k % 64]
  }

  /** x >> (64 - shift). With shift zero the machine shifts by 64, and what it gives is up to the machine. */
  function HighPart(oversize: Word -> Word, x: Word, shift: nat): Word
    requires shift < 64
  {
    if shift == 0 then oversize(x) else Shr(x, 64 - shift)
  }

  /** Word ii after the shift: bits of two words below it. */
  function ShiftWord(oversize: Word -> Word, old': seq<Word>, wordShift: nat, bitShift: nat, ii: nat): Word
    requires |old'| == BITMAP_WORDS && wordShift <= ii < BITMAP_WORDS && bitShift < 64
  {
    if ii == wordShift then Shl(old'[0], bitShift)
    else Or(Shl(old'[ii - wordShift], bitShift), HighPart(oversize, old'[ii - wordShift - 1], bitShift))
  }

  ghost predicate ShiftedBy(oversize: Word -> Word, old': seq<Word>, new': seq<Word>, wordShift: nat, bitShift: nat) {
    && |old'| == |new'| == BITMAP_WORDS && wordShift < BITMAP_WORDS && bitShift < 64
    && (forall ii :: 0 <= ii < wordShift ==> new'[ii] == NoWord())
    && forall ii :: wordShift <= ii < BITMAP_WORDS ==> new'[ii] == ShiftWord(oversize, old', wordShift, bitShift, ii)
  }

  /** A shift by whole words shifts the word two below by 64, and this bit of the result lands on position k. */
  predicate Spilled(oversize: Word -> Word, old': seq<Word>, delta: nat, k: nat)
    requires |old'| == BITMAP_WORDS && k < BITMAP_BITS
  {
    delta % 64 == 0 && k / 64 > delta / 64 && oversize(old'[k / 64 - delta / 64 - 1])[k % 64]
  }

  /** The shift by 64 sets no bit that is not set anyway. */
  ghost predicate Harmless(oversize: Word -> Word, old': seq<Word>, delta: nat)
    requires |old'| == BITMAP_WORDS
  {
    forall k :: delta <= k < BITMAP_BITS && Spilled(oversize, old', delta, k) ==> Bit(old', k - delta)
  }

  /** The shifted window: no bit is lost, and the bits gained are the spilled ones. */
  lemma ShiftBits(oversize: Word -> Word, old': seq<Word>, new': seq<Word>, delta: nat, k: nat)
    requires 0 < delta < BITMAP_BITS && ShiftedBy(oversize, old', new', delta / 64, delta % 64) && k < BITMAP_BITS
    ensures k < delta ==> !Bit(new', k)
    ensures k >= delta ==> (Bit(new', k) <==> Bit(old', k - delta) || Spilled(oversize, old', delta, k))
  {
    var ws, bs, ii, j := delta / 64, delta % 64, k / 64, k % 64;
    assert k == 64 * ii + j && delta == 64 * ws + bs;
    if k >= delta {
      if j >= bs {
        assert (k - delta) / 64 == ii - ws && (k - delta) % 64 == j - bs;
      } else {
        assert (k - delta) / 64 == ii - ws - 1 && (k - delta) % 64 == 64 + j - bs;
      }
    }
  }

  /** (int)x: the low 32 bits, signed. */
  function Int32(x: int): int {
    var y := x % U32;
    if y >= U32 / 2 then y - U32 else y
  }

  lemma Int32Near(counter: int, iv: nat, d: int)
    requires iv == (counter + d) % FULL && -(U32 / 2) < d < U32 / 2
    ensures Int32((counter % FULL - iv) % FULL) == -d && Int32((iv - counter % FULL) % FULL) == d
  {
    Reduce32(counter % FULL - iv, -d, counter, counter + d);
    Reduce32(iv - counter % FULL, d, counter + d, counter);
  }

  lemma Reduce32(x: int, d: int, a: int, b: int)
    requires d == b - a || d == a - b
    requires x == a % FULL - b % FULL || x == b % FULL - a % FULL
    requires (x == a % FULL - b % FULL && d == a - b) || (x == b % FULL - a % FULL && d == b - a)
    ensures (x % FULL) % U32 == d % U32
  {
    var qa, qb := a / FULL, b / FULL;
    assert a == qa * FULL + a % FULL && b == qb * FULL + b % FULL;
    var q := if x == a % FULL - b % FULL && d == a - b then qa - qb else qb - qa;
    assert d == q * FULL + x;
    var qx := x / FULL;
    assert x == qx * FULL + x % FULL;
    var n := (q + qx) * U32;
    assert d == n * U32 + x % FULL by {
      assert FULL == U32 * U32;
      assert (q + qx) * FULL == n * U32;
    }
    ModShift(x % FULL, n);
  }

  lemma ModShift(y: int, n: int)
    ensures (n * U32 + y) % U32 == y % U32
  {}

  /** Every counter the window covers and that was accepted has its bit set. */
  ghost predicate Covers(map': seq<Word>, counter: int, accepted: set<int>) {
    && |map'| == BITMAP_WORDS && (forall c :: c in accepted ==> c <= counter)
    && forall k: nat :: k < BITMAP_BITS && counter - k in accepted ==> Bit(map', k)
  }

  /** And no other bit is set. */
  ghost predicate NoExtra(map': seq<Word>, counter: int, accepted: set<int>) {
    |map'| == BITMAP_WORDS && forall k: nat :: k < BITMAP_BITS && Bit(map', k) ==> counter - k in accepted
  }

  /** The receiving side of a session. counter is the true value of the last accepted counter, of which
      remoteIv holds 64 bits; accepted holds every counter accepted so far. */
  class Receiver {
    const oversize: Word -> Word   // what the machine makes of a 64-bit word shifted right by 64
    var remoteIv: nat
    const bitmap: array<Word>
    ghost var counter: int
    ghost var accepted: set<int>

    constructor (oversize: Word -> Word)
      ensures Valid() && Exact() && accepted == {} && counter == 0 && this.oversize == oversize && fresh(bitmap)
    {
      this.oversize := oversize;
      remoteIv, counter, accepted := 0, 0, {};
      bitmap := new Word[BITMAP_WORDS](_ => NoWord());
    }

    ghost predicate Valid()
      reads this, bitmap
    {
      && bitmap.Length == BITMAP_WORDS && remoteIv == counter % FULL && Covers(bitmap[..], counter, accepted)
      && counter >= 0 && forall c :: c in accepted ==> c > -1024
    }

    ghost predicate Exact()
      reads this, bitmap
    {
      NoExtra(bitmap[..], counter, accepted)
    }

    /** A counter d ahead of the last one is acceptable unless it is behind and too old or seen. */
    method IsValidIV(iv: nat, ghost d: int) returns (ok: bool)
      requires Valid() && iv == (counter + d) % FULL && -(U32 / 2) < d < U32 / 2
      ensures ok <==> d > 0 || (-d < BITMAP_BITS && !Bit(bitmap[..], -d))
    {
      Int32Near(counter, iv, d);
      var delta := Int32((remoteIv - iv) % FULL);
      if delta >= 0 {
        if delta >= BITMAP_BITS { return false; }
        if bitmap[delta / 64][delta % 64] { return false; }
      }
      return true;
    }

    /** Shifts the window by delta positions in place, from the top word down. */
    method ShiftWindow(delta: nat)
      requires bitmap.Length == BITMAP_WORDS && 0 < delta < BITMAP_BITS
      modifies bitmap
      ensures ShiftedBy(oversize, old(bitmap[..]), bitmap[..], delta / 64, delta % 64)
    {
      hide Or, Shl, Shr, NoWord, HighPart, ShiftWord;
      var wordShift, bitShift := delta / 64, delta % 64;
      ghost var map0 := bitmap[..];
      var last := bitmap[BITMAP_WORDS - 1 - wordShift];
      var ii := BITMAP_WORDS - 1;
      while ii >= wordShift + 1
        invariant wordShift <= ii < BITMAP_WORDS && last == map0[ii - wordShift]
        invariant forall jj :: 0 <= jj <= ii ==> bitmap[jj] == map0[jj]
        invariant forall jj :: ii < jj < BITMAP_WORDS ==>
                    bitmap[jj] == ShiftWord(oversize, map0, wordShift, bitShift, jj)
      {
        var x := bitmap[ii - wordShift - 1];
        ShiftWordIs(oversize, map0, wordShift, bitShift, ii);
        bitmap[ii] := Or(Shl(last, bitShift), HighPart(oversize, x, bitShift));
        last := x;
        ii := ii - 1;
      }
      ShiftWordIs(oversize, map0, wordShift, bitShift, wordShift);
      bitmap[wordShift] := Shl(last, bitShift);
      ghost var map1 := bitmap[..];
      for jj := 0 to wordShift
        invariant forall i :: wordShift <= i < BITMAP_WORDS ==> bitmap[i] == map1[i]
        invariant forall i :: 0 <= i < jj ==> bitmap[i] == NoWord()
      {
        bitmap[jj] := NoWord();
      }
    }

    /** Moves the window forward by d and sets its low bit. */
    method Advance(d: nat)
      requires bitmap.Length == BITMAP_WORDS && 0 < d < BITMAP_BITS
      modifies bitmap
      ensures forall k :: 0 <= k < d ==> (Bit(bitmap[..], k) <==> k == 0)
      ensures forall k :: d <= k < BITMAP_BITS ==>
                (Bit(bitmap[..], k) <==> Bit(old(bitmap[..]), k - d) || Spilled(oversize, old(bitmap[..]), d, k))
    {
      hide ShiftedBy, Bit, Spilled;
      ghost var map0 := bitmap[..];
      ShiftWindow(d);
      ghost var map1 := bitmap[..];
      forall k | 0 <= k < BITMAP_BITS
        ensures k < d ==> !Bit(map1, k)
        ensures k >= d ==> (Bit(map1, k) <==> Bit(map0, k - d) || Spilled(oversize, map0, d, k))
      {
        ShiftBits(oversize, map0, map1, d, k);
      }
      Mark(0);
    }

    /** Records an acceptable counter. An exact window stays exact exactly when the move spills no new bit. */
    method AcceptIV(iv: nat, ghost d: int)
      requires Valid() && iv == (counter + d) % FULL && -1024 < d < U32 / 2
      modifies this, bitmap
      ensures Valid() && accepted == old(accepted) + {old(counter) + d}
      ensures counter == if d > 0 then old(counter) + d else old(counter)
      ensures old(Exact()) ==> (Exact() <==> (0 < d < BITMAP_BITS ==> Harmless(oversize, old(bitmap[..]), d)))
    {
      hide Bit, Covers, NoExtra, Int32, Harmless;
      Int32Near(counter, iv, d);
      var delta := Int32((iv - remoteIv) % FULL);
      if delta > 0 {
        MoveWindow(delta);
        remoteIv := iv;
        counter := counter + d;
      } else {
        ghost var map0 := bitmap[..];
        Mark(-delta);
        WindowMarks(map0, bitmap[..], counter, d, accepted);
      }
      accepted := accepted + {old(counter) + d};
    }

    /** A counter ahead of the last one: the window moves up to it. */
    method MoveWindow(delta: nat)
      requires bitmap.Length == BITMAP_WORDS && delta > 0 && Covers(bitmap[..], counter, accepted)
      modifies bitmap
      ensures Covers(bitmap[..], counter + delta, accepted + {counter + delta})
      ensures NoExtra(old(bitmap[..]), counter, accepted) ==>
                (NoExtra(bitmap[..], counter + delta, accepted + {counter + delta}) <==>
                 (delta < BITMAP_BITS ==> Harmless(oversize, old(bitmap[..]), delta)))
    {
      hide Bit, Covers, NoExtra, Harmless, Spilled;
      ghost var map0 := bitmap[..];
      if delta >= BITMAP_BITS {
        ResetWindow();
        WindowReset(map0, bitmap[..], counter, delta, accepted);
      } else {
        Advance(delta);
        WindowMoves(oversize, map0, bitmap[..], counter, delta, accepted);
      }
    }

    /** Sets bit k. */
    method Mark(k: nat)
      requires bitmap.Length == BITMAP_WORDS && k < BITMAP_BITS
      modifies bitmap
      ensures forall j :: 0 <= j < BITMAP_BITS ==> (Bit(bitmap[..], j) <==> j == k || Bit(old(bitmap[..]), j))
    {
      hide Bit;
      ghost var map0 := bitmap[..];
      bitmap[k / 64] := bitmap[k / 64][k % 64 := true];
      SetBit(map0, bitmap[..], k);
    }

    /** Low bit one, all others zero. */
    method ResetWindow()
      requires bitmap.Length == BITMAP_WORDS
      modifies bitmap
      ensures forall k :: 0 <= k < BITMAP_BITS ==> (Bit(bitmap[..], k) <==> k == 0)
    {
      bitmap[0] := NoWord()[0 := true];
      for ii := 1 to BITMAP_WORDS
        invariant bitmap[0] == NoWord()[0 := true] && forall i :: 1 <= i < ii ==> bitmap[i] == NoWord()
      {
        bitmap[ii] := NoWord();
      }
    }

    /** One packet: its 24 counter bits, and whether its code checks out for the reconstructed counter. Nothing
        changes unless it is accepted, and no counter is accepted twice. */
    method Decrypt(truncIv: nat, authentic: bool) returns (ok: bool)
      requires Valid() && truncIv < IV_MSB
      modifies this, bitmap
      ensures Valid()
      ensures var iv := old(counter) + Nearest(old(remoteIv), truncIv);
        && (ok ==> authentic && iv !in old(accepted) && accepted == old(accepted) + {iv}
                   && counter == if iv > old(counter) then iv else old(counter))
        && (!ok ==> accepted == old(accepted) && counter == old(counter) && bitmap[..] == old(bitmap[..]))
        && (old(Exact()) ==> (ok <==> authentic && iv > old(counter) - BITMAP_BITS && iv !in old(accepted)))
        && (old(Exact()) ==>
              (Exact() <==> (ok && 0 < iv - old(counter) < BITMAP_BITS ==>
                               Harmless(oversize, old(bitmap[..]), iv - old(counter)))))
    {
      Reconstructs(remoteIv, truncIv);
      ghost var d := Nearest(remoteIv, truncIv);
      var iv := ReconstructIV(remoteIv, truncIv);
      SameResidue(counter, d);
      ok := IsValidIV(iv, d);
      if !ok || !authentic {
        return false;
      }
      AcceptIV(iv, d);
      return true;
    }
  }

  lemma ShiftWordIs(oversize: Word -> Word, old': seq<Word>, wordShift: nat, bitShift: nat, ii: nat)
    requires |old'| == BITMAP_WORDS && wordShift <= ii < BITMAP_WORDS && bitShift < 64
    ensures ii > wordShift ==>
      ShiftWord(oversize, old', wordShift, bitShift, ii) ==
      Or(Shl(old'[ii - wordShift], bitShift), HighPart(oversize, old'[ii - wordShift - 1], bitShift))
    ensures ii == wordShift ==> ShiftWord(oversize, old', wordShift, bitShift, ii) == Shl(old'[0], bitShift)
  {}

  // Position k of the moved window stands for the counter position k - d stood for.
  lemma WindowMoves(oversize: Word -> Word, map0: seq<Word>, map1: seq<Word>, counter: int, d: int, accepted: set<int>)
    requires |map1| == BITMAP_WORDS && 0 < d < BITMAP_BITS && Covers(map0, counter, accepted)
    requires forall k :: 0 <= k < d ==> (Bit(map1, k) <==> k == 0)
    requires forall k :: d <= k < BITMAP_BITS ==> (Bit(map1, k) <==> Bit(map0, k - d) || Spilled(oversize, map0, d, k))
    ensures Covers(map1, counter + d, accepted + {counter + d})
    ensures NoExtra(map0, counter, accepted) ==>
              (NoExtra(map1, counter + d, accepted + {counter + d}) <==> Harmless(oversize, map0, d))
  {
    hide Bit, Spilled;
    forall k: nat | k < BITMAP_BITS && counter + d - k in accepted + {counter + d} ensures Bit(map1, k) {
      if k > 0 {
        assert counter - (k - d) in accepted;
      }
    }
    if NoExtra(map0, counter, accepted) {
      ExactAfter(oversize, map0, map1, counter, d, accepted);
    }
  }

  lemma ExactAfter(oversize: Word -> Word, map0: seq<Word>, map1: seq<Word>, counter: int, d: int, accepted: set<int>)
    requires |map1| == BITMAP_WORDS && 0 < d < BITMAP_BITS
    requires Covers(map0, counter, accepted) && NoExtra(map0, counter, accepted)
    requires forall k :: 0 <= k < d ==> (Bit(map1, k) <==> k == 0)
    requires forall k :: d <= k < BITMAP_BITS ==> (Bit(map1, k) <==> Bit(map0, k - d) || Spilled(oversize, map0, d, k))
    ensures NoExtra(map1, counter + d, accepted + {counter + d}) <==> Harmless(oversize, map0, d)
  {
    hide Bit, Spilled;
    forall j: nat | j < BITMAP_BITS - d ensures Bit(map0, j) <==> counter - j in accepted + {counter + d} {}
  }

  /** A machine spills nothing, whatever the window and the move, exactly when it shifts every word by 64 to zero. */
  lemma HarmlessIff(oversize: Word -> Word)
    ensures (forall map', d: nat :: |map'| == BITMAP_WORDS && 0 < d ==> Harmless(oversize, map', d)) <==>
              forall x :: oversize(x) == NoWord()
  {
    if forall map', d: nat :: |map'| == BITMAP_WORDS && 0 < d ==> Harmless(oversize, map', d) {
      forall x: Word ensures oversize(x) == NoWord() {
        LowWordSpills(oversize, x);
      }
    }
  }

  function LowWord(x: Word): (map': seq<Word>)
    ensures |map'| == BITMAP_WORDS && map'[0] == x && forall i :: 0 < i < BITMAP_WORDS ==> map'[i] == NoWord()
  {
    [x] + seq(BITMAP_WORDS - 1, _ => NoWord())
  }

  lemma LowWordSpills(oversize: Word -> Word, x: Word)
    requires Harmless(oversize, LowWord(x), 64)
    ensures oversize(x) == NoWord()
  {
    forall j | 0 <= j < 64 ensures !oversize(x)[j] {
      assert (128 + j) / 64 == 2 && (128 + j) % 64 == j;
      assert (64 + j) / 64 == 1 && (64 + j) % 64 == j;
      assert Spilled(oversize, LowWord(x), 64, 128 + j) <==> oversize(x)[j];
    }
  }

  lemma WindowReset(map0: seq<Word>, map1: seq<Word>, counter: int, d: int, accepted: set<int>)
    requires |map1| == BITMAP_WORDS && d >= BITMAP_BITS && Covers(map0, counter, accepted)
    requires forall k :: 0 <= k < BITMAP_BITS ==> (Bit(map1, k) <==> k == 0)
    ensures Covers(map1, counter + d, accepted + {counter + d}) && NoExtra(map1, counter + d, accepted + {counter + d})
  {
    hide Bit;
  }

  lemma WindowMarks(map0: seq<Word>, map1: seq<Word>, counter: int, d: int, accepted: set<int>)
    requires |map1| == BITMAP_WORDS && -1024 < d <= 0 && Covers(map0, counter, accepted)
    requires forall j :: 0 <= j < BITMAP_BITS ==> (Bit(map1, j) <==> j == -d || Bit(map0, j))
    ensures Covers(map1, counter, accepted + {counter + d})
    ensures NoExtra(map0, counter, accepted) ==> NoExtra(map1, counter, accepted + {counter + d})
  {
    hide Bit;
  }

  lemma SameResidue(counter: int, d: int)
    ensures (counter % FULL + d) % FULL == (counter + d) % FULL
  {
    var q := counter / FULL;
    assert counter == q * FULL + counter % FULL;
    ModFull(counter % FULL + d, q);
  }

  lemma ModFull(y: int, q: int)
    ensures (q * FULL + y) % FULL == y % FULL
  {}

  lemma SetBit(map0: seq<Word>, map1: seq<Word>, k: nat)
    requires |map0| == |map1| == BITMAP_WORDS && k < BITMAP_BITS
    requires map1 == map0[k / 64 := map0[k / 64][k % 64 := true]]
    ensures forall j :: 0 <= j < BITMAP_BITS ==> (Bit(map1, j) <==> j == k || Bit(map0, j))
  {
    forall j | 0 <= j < BITMAP_BITS ensures Bit(map1, j) <==> j == k || Bit(map0, j) {
      assert j == 64 * (j / 64) + j % 64 && k == 64 * (k / 64) + k % 64;
    }
  }

  /** As 64-bit values, too, no counter is accepted twice, as long as the true counter has not passed 2^64 - 1024. */
  lemma NoReplayInWords(accepted: set<int>, counter: int, a: int, b: int)
    requires (forall c :: c in accepted ==> -1024 < c <= counter) && counter <= FULL - 1024
    requires a in accepted && b in accepted && a % FULL == b % FULL
    ensures a == b
  {
    var qa, qb := a / FULL, b / FULL;
    assert a == qa * FULL + a % FULL && b == qb * FULL + b % FULL;
  }

  /** On a machine that shifts by the count modulo 64, a jump of 64 marks a counter that was never accepted:
      accepting only c, then c + 64, also blocks c - 64. */
  lemma OversizeShiftGains(old': seq<Word>, new': seq<Word>)
    requires |old'| == BITMAP_WORDS && (forall k :: 0 <= k < BITMAP_BITS ==> (Bit(old', k) <==> k == 0))
    requires ShiftedBy(x => x, old', new', 1, 0)
    ensures Bit(new', 128) && !Bit(old', 128 - 64) && !Harmless(x => x, old', 64)
  {
    hide ShiftedBy, Shl, Shr, NoWord;
    ShiftBits(x => x, old', new', 64, 128);
    assert Bit(old', 0) == old'[0][0];
    assert Spilled(x => x, old', 64, 128);
  }
}
