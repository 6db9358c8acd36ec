/** Bit rows packed in 64-bit words: the word operations of the solver refine the bit operations
    (src/fec/Wirehair.cpp). */
module Packed {
  import opened Blocks
  import opened Shuffle
  import opened CheckSystem
  import opened Triangle
  import opened Windows
  import opened Words

  /** Bit c of a packed row. */
  function Bit(row: seq<Word>, c: nat): bool
    requires c < 64 * |row|
  {
    row[c / 64][c % 64]
  }

  ghost function Unpack(row: seq<Word>): (bits: Bits)
    ensures |bits| == 64 * |row|
  {
    seq(64 * |row|, c requires 0 <= c < 64 * |row| => Bit(row, c))
  }

  /** The words hold the bits, in order; past them they may hold anything. */
  ghost predicate Packs(row: seq<Word>, bits: Bits) {
    |bits| <= 64 * |row| && forall c :: 0 <= c < |bits| ==> Bit(row, c) == bits[c]
  }

  // ---- Adding the invertible matrix ----

  /** A 64-bit word from two generator words, low half first. */
  function WordAt(stream: nat -> nat, pos: nat): Word {
    seq(64, b requires 0 <= b < 64 => BitOf(stream(pos + b / 32), b % 32))
  }

  method NextWord(prng: Prng) returns (word: Word)
    modifies prng
    ensures word == WordAt(prng.stream, old(prng.pos)) && prng.pos == old(prng.pos) + 2
  {
    hide BitOf;
    var rv1 := prng.Next();
    var rv2 := prng.Next();
    word := seq(64, b requires 0 <= b < 64 => BitOf(if b < 32 then rv1 else rv2, b % 32));
  }

  /** Bit c of a run of stream words that starts shift bits into the row. */
  ghost function Shifted(stream: nat -> nat, pos: nat, shift: nat, n: nat, c: nat): bool {
    shift <= c < shift + n && WordAt(stream, pos + 2 * ((c - shift) / 64))[(c - shift) % 64]
  }

  /** The words of the row from word first on, up to word count, have the stream's bits added; the rest are as
      before. */
  ghost predicate Added(row: seq<Word>, row': seq<Word>, stream: nat -> nat, pos: nat, first: nat, shift: nat, n: nat,
                        count: nat) {
    && |row'| == |row| && first + count <= |row|
    && (forall w :: 0 <= w < |row| && !(first <= w < first + count) ==> row'[w] == row[w])
    && (forall w, k :: first <= w < first + count && 0 <= k < 64 ==>
          row'[w][k] == (row[w][k] != Shifted(stream, pos, shift, n, 64 * (w - first) + k)))
  }

  /** One word of the run: the high bits of the word before it, then its own low bits. */
  lemma JoinBits(stream: nat -> nat, pos: nat, shift: nat, n: nat, w: nat, prev: Word, word: Word, k: nat)
    requires 0 < shift < 64 && k < 64 && prev == (if w == 0 then NoWord() else WordAt(stream, pos + 2 * (w - 1)))
    requires word == WordAt(stream, pos + 2 * w)
    ensures var joined := Or(Shr(prev, 64 - shift), Shl(word, shift));
            && (64 * w + k < shift + n ==> joined[k] == Shifted(stream, pos, shift, n, 64 * w + k))
            && (64 * w + k >= shift + n ==> !Shifted(stream, pos, shift, n, 64 * w + k))
  {
    hide WordAt;
    if k < shift {
      if w > 0 {
        assert 64 * w + k - shift == 64 * (w - 1) + (64 - shift + k);
        assert (64 * w + k - shift) / 64 == w - 1 && (64 * w + k - shift) % 64 == 64 - shift + k;
      }
    } else {
      assert (64 * w + k - shift) / 64 == w && (64 * w + k - shift) % 64 == k - shift;
    }
  }

  lemma AddedNext(row: seq<Word>, row': seq<Word>, stream: nat -> nat, pos: nat, first: nat, shift: nat, n: nat, w: nat,
                  joined: Word)
    requires Added(row, row', stream, pos, first, shift, n, w) && first + w < |row|
    requires forall k :: 0 <= k < 64 ==> joined[k] == Shifted(stream, pos, shift, n, 64 * w + k)
    ensures Added(row, row'[first + w := XorWord(row'[first + w], joined)], stream, pos, first, shift, n, w + 1)
  {
    hide Shifted;
  }

  /** Adds one row of n stream bits at a bit offset that is not a multiple of 64. */
  method AddShiftedRow(prng: Prng, row: seq<Word>, first: nat, shift: nat, n: nat) returns (row': seq<Word>)
    requires 0 < shift < 64 && 0 < n && 64 * first + shift + n <= 64 * |row|
    modifies prng
    ensures Added(row, row', prng.stream, old(prng.pos), first, shift, n, (shift + n + 63) / 64)
    ensures prng.pos == old(prng.pos) + 2 * ((n + 63) / 64)
  {
    hide WordAt, Shifted, Shl, Shr, Or, XorWord, LowBits;
    ghost var stream, pos := prng.stream, prng.pos;
    var addPitch := (n + 63) / 64;
    var prev := NoWord();
    row' := row;
    for w := 0 to addPitch - 1
      invariant prev == (if w == 0 then NoWord() else WordAt(stream, pos + 2 * (w - 1))) && prng.pos == pos + 2 * w
      invariant Added(row, row', stream, pos, first, shift, n, w)
    {
      var word := NextWord(prng);
      var joined := Or(Shr(prev, 64 - shift), Shl(word, shift));
      forall k | 0 <= k < 64 ensures joined[k] == Shifted(stream, pos, shift, n, 64 * w + k) {
        JoinBits(stream, pos, shift, n, w, prev, word, k);
      }
      AddedNext(row, row', stream, pos, first, shift, n, w, joined);
      row' := row'[first + w := XorWord(row'[first + w], joined)];
      prev := word;
    }
    ghost var w := addPitch - 1;
    var word := NextWord(prng);
    var lastBit := (shift + n + 63) / 64;
    var writeCount := (shift + n) % 64;
    var joined := Or(Shr(prev, 64 - shift), Shl(word, shift));
    if lastBit > addPitch {
      forall k | 0 <= k < 64 ensures joined[k] == Shifted(stream, pos, shift, n, 64 * w + k) {
        JoinBits(stream, pos, shift, n, w, prev, word, k);
      }
      AddedNext(row, row', stream, pos, first, shift, n, w, joined);
      row' := row'[first + addPitch - 1 := XorWord(row'[first + addPitch - 1], joined)];
      var tail := LowBits(Shr(word, 64 - shift), writeCount);
      forall k | 0 <= k < 64 ensures tail[k] == Shifted(stream, pos, shift, n, 64 * (w + 1) + k) {
        TailBits(stream, pos, shift, n, w, word, k);
      }
      AddedNext(row, row', stream, pos, first, shift, n, w + 1, tail);
      row' := row'[first + addPitch := XorWord(row'[first + addPitch], tail)];
    } else {
      joined := LowBits(joined, writeCount);
      forall k | 0 <= k < 64 ensures joined[k] == Shifted(stream, pos, shift, n, 64 * w + k) {
        LastBits(stream, pos, shift, n, w, prev, word, k);
      }
      AddedNext(row, row', stream, pos, first, shift, n, w, joined);
      row' := row'[first + addPitch - 1 := XorWord(row'[first + addPitch - 1], joined)];
    }
  }

  // The word past the run's last stream word takes that word's high bits, as far as the run goes.
  lemma TailBits(stream: nat -> nat, pos: nat, shift: nat, n: nat, w: nat, word: Word, k: nat)
    requires 0 < shift < 64 && 0 < n && k < 64 && w == (n + 63) / 64 - 1 && word == WordAt(stream, pos + 2 * w)
    requires (shift + n + 63) / 64 > (n + 63) / 64
    ensures LowBits(Shr(word, 64 - shift), (shift + n) % 64)[k] == Shifted(stream, pos, shift, n, 64 * (w + 1) + k)
  {
    hide WordAt;
    var c := 64 * (w + 1) + k;
    if k < shift {
      assert (c - shift) / 64 == w && (c - shift) % 64 == 64 - shift + k;
    }
  }

  lemma LastBits(stream: nat -> nat, pos: nat, shift: nat, n: nat, w: nat, prev: Word, word: Word, k: nat)
    requires 0 < shift < 64 && 0 < n && k < 64 && w == (n + 63) / 64 - 1
    requires prev == (if w == 0 then NoWord() else WordAt(stream, pos + 2 * (w - 1)))
    requires word == WordAt(stream, pos + 2 * w)
    requires (shift + n + 63) / 64 <= (n + 63) / 64
    ensures LowBits(Or(Shr(prev, 64 - shift), Shl(word, shift)), (shift + n) % 64)[k]
              == Shifted(stream, pos, shift, n, 64 * w + k)
  {
    hide WordAt, Shr, Shl, Or, Shifted;
    JoinBits(stream, pos, shift, n, w, prev, word, k);
  }

  /** The same at a word boundary. */
  method AddAlignedRow(prng: Prng, row: seq<Word>, first: nat, n: nat) returns (row': seq<Word>)
    requires 0 < n && 64 * first + n <= 64 * |row|
    modifies prng
    ensures Added(row, row', prng.stream, old(prng.pos), first, 0, n, (n + 63) / 64)
    ensures prng.pos == old(prng.pos) + 2 * ((n + 63) / 64)
  {
    hide WordAt, Shl, Shr, Or, XorWord;
    ghost var stream, pos := prng.stream, prng.pos;
    var addPitch := (n + 63) / 64;
    row' := row;
    for w := 0 to addPitch - 1
      invariant prng.pos == pos + 2 * w && Added(row, row', stream, pos, first, 0, n, w)
    {
      var word := NextWord(prng);
      AddedNext(row, row', stream, pos, first, 0, n, w, word);
      row' := row'[first + w := XorWord(row'[first + w], word)];
    }
    var word := NextWord(prng);
    var joined := LowBits(word, n % 64);
    AddedNext(row, row', stream, pos, first, 0, n, addPitch - 1, joined);
    row' := row'[first + addPitch - 1 := XorWord(row'[first + addPitch - 1], joined)];
  }

  /** Flips one bit of a packed row. */
  function FlipWordBit(row: seq<Word>, c: nat): (row': seq<Word>)
    requires c < 64 * |row|
    ensures |row'| == |row|
  {
    row[c / 64 := row[c / 64][c % 64 := !row[c / 64][c % 64]]]
  }

  lemma FlipBitAt(row: seq<Word>, c: nat, c': nat)
    requires c < 64 * |row| && c' < 64 * |row|
    ensures Bit(FlipWordBit(row, c), c') == if c' == c then !Bit(row, c) else Bit(row, c')
  {
    assert c == 64 * (c / 64) + c % 64 && c' == 64 * (c' / 64) + c' % 64;
  }

  // A stream bit of a row is an entry of the invertible matrix.
  lemma StreamEntry(stream: nat -> nat, n: nat, i: nat, shift: nat, c: nat)
    requires n < 512
    ensures Shifted(stream, InvertiblePos(n, i), shift, n, c)
              == (shift <= c < shift + n && InvertibleBit(stream, n, i, c - shift))
  {
    hide BitOf, InvertiblePos, WordAt;
    if shift <= c < shift + n {
      var j := c - shift;
      WordEntry(stream, InvertiblePos(n, i) + 2 * (j / 64), j % 64);
      SameLane(j);
    }
  }

  lemma WordEntry(stream: nat -> nat, pos: nat, b: nat)
    requires b < 64
    ensures WordAt(stream, pos)[b] == BitOf(stream(pos + b / 32), b % 32)
  {}

  lemma SameLane(j: nat)
    ensures (j % 64) % 32 == j % 32
  {}

  // Every bit of the row is as the bit-level specification says.
  lemma AddedBits(row: seq<Word>, row': seq<Word>, stream: nat -> nat, n: nat, i: nat, offset: nat, count: nat)
    requires n < 512 && offset + n <= 64 * |row| && count == (offset % 64 + n + 63) / 64
    requires Added(row, row', stream, InvertiblePos(n, i), offset / 64, offset % 64, n, count)
    ensures Unpack(row') == XorBits(Unpack(row), InvertibleRow(stream, n, i, offset, 64 * |row|))
  {
    hide InvertibleBit, InvertiblePos, Shifted;
    var bits, bits' := Unpack(row'), XorBits(Unpack(row), InvertibleRow(stream, n, i, offset, 64 * |row|));
    forall c | 0 <= c < 64 * |row| ensures bits[c] == bits'[c] {
      AddedBit(row, row', stream, n, i, offset, count, c);
    }
  }

  lemma AddedBit(row: seq<Word>, row': seq<Word>, stream: nat -> nat, n: nat, i: nat, offset: nat, count: nat, c: nat)
    requires n < 512 && offset + n <= 64 * |row| && count == (offset % 64 + n + 63) / 64 && c < 64 * |row|
    requires Added(row, row', stream, InvertiblePos(n, i), offset / 64, offset % 64, n, count)
    ensures Bit(row', c) == (Bit(row, c) != (offset <= c < offset + n && InvertibleBit(stream, n, i, c - offset)))
  {
    hide InvertibleBit, InvertiblePos, Shifted;
    var first, shift := offset / 64, offset % 64;
    var w, k := c / 64, c % 64;
    assert c == 64 * w + k && offset == 64 * first + shift;
    if first <= w < first + count {
      StreamEntry(stream, n, i, shift, 64 * (w - first) + k);
      assert row'[w][k] == (row[w][k] != Shifted(stream, InvertiblePos(n, i), shift, n, 64 * (w - first) + k));
    } else {
      assert row'[w] == row[w];
    }
  }

  /** AddInvertibleGF2Matrix on packed rows: the same n by n matrix at any bit offset, and no other bit touched. */
  method AddInvertibleGF2Matrix(matrix: seq<seq<Word>>, stream: nat -> nat, offset: nat, n: nat)
    returns (ok: bool, matrix': seq<seq<Word>>)
    requires n <= |matrix| && forall i :: 0 <= i < |matrix| ==> offset + n <= 64 * |matrix[i]|
    ensures ok == (n > 0) && |matrix'| == |matrix|
    ensures forall i :: 0 <= i < |matrix| ==>
              Unpack(matrix'[i]) == if i < n then
                                      XorBits(Unpack(matrix[i]), InvertibleRow(stream, n, i, offset, 64 * |matrix[i]|))
                                    else Unpack(matrix[i])
    ensures forall i, bits :: 0 <= i < |matrix| && Packs(matrix[i], bits) ==>
              Packs(matrix'[i], if i < n then XorBits(bits, InvertibleRow(stream, n, i, offset, |bits|)) else bits)
  {
    hide InvertibleRow, XorBits, Unpack, Added, InvertibleBit, Packs;
    matrix' := matrix;
    if n <= 0 {
      return false, matrix';
    }
    if n < 512 {
      var prng := new Prng(stream);
      var shift := offset % 64;
      for i := 0 to n
        invariant prng.pos == InvertiblePos(n, i) && prng.stream == stream && |matrix'| == |matrix|
        invariant forall r :: i <= r < |matrix| ==> matrix'[r] == matrix[r]
        invariant forall r :: 0 <= r < i ==>
          Unpack(matrix'[r]) == XorBits(Unpack(matrix[r]), InvertibleRow(stream, n, r, offset, 64 * |matrix[r]|))
      {
        var row;
        if shift > 0 {
          row := AddShiftedRow(prng, matrix[i], offset / 64, shift, n);
        } else {
          row := AddAlignedRow(prng, matrix[i], offset / 64, n);
        }
        AddedBits(matrix[i], row, stream, n, i, offset, (shift + n + 63) / 64);
        matrix' := matrix'[i := row];
      }
    } else {
      for i := 0 to n
        invariant |matrix'| == |matrix| && forall r :: i <= r < |matrix| ==> matrix'[r] == matrix[r]
        invariant forall r :: 0 <= r < i ==>
          Unpack(matrix'[r]) == XorBits(Unpack(matrix[r]), InvertibleRow(stream, n, r, offset, 64 * |matrix[r]|))
      {
        DiagonalBits(matrix[i], stream, n, i, offset);
        matrix' := matrix'[i := FlipWordBit(matrix[i], offset + i)];
      }
    }
    forall i, bits | 0 <= i < |matrix| && Packs(matrix[i], bits)
      ensures Packs(matrix'[i], if i < n then XorBits(bits, InvertibleRow(stream, n, i, offset, |bits|)) else bits)
    {
      PacksTied(matrix[i], matrix'[i], bits, stream, n, i, offset);
    }
    return true, matrix';
  }

  /** The packed row goes on packing the row of the elimination matrix it stands for. */
  lemma PacksTied(row: seq<Word>, row': seq<Word>, bits: Bits, stream: nat -> nat, n: nat, i: nat, offset: nat)
    requires Packs(row, bits)
    requires Unpack(row') == if i < n then XorBits(Unpack(row), InvertibleRow(stream, n, i, offset, 64 * |row|))
                             else Unpack(row)
    ensures Packs(row', if i < n then XorBits(bits, InvertibleRow(stream, n, i, offset, |bits|)) else bits)
  {
    hide InvertibleBit;
    assert |Unpack(row')| == 64 * |row|;
    forall c | 0 <= c < |bits| ensures Bit(row', c) == Unpack(row')[c] && Bit(row, c) == Unpack(row)[c] {}
  }

  lemma DiagonalBits(row: seq<Word>, stream: nat -> nat, n: nat, i: nat, offset: nat)
    requires n >= 512 && i < n && offset + n <= 64 * |row|
    ensures Unpack(FlipWordBit(row, offset + i))
              == XorBits(Unpack(row), InvertibleRow(stream, n, i, offset, 64 * |row|))
  {
    hide FlipWordBit, Bit;
    var a, b := Unpack(FlipWordBit(row, offset + i)),
        XorBits(Unpack(row), InvertibleRow(stream, n, i, offset, 64 * |row|));
    forall c | 0 <= c < 64 * |row| ensures a[c] == b[c] {
      FlipBitAt(row, offset + i, c);
      if offset <= c < offset + n {
        assert InvertibleBit(stream, n, i, c - offset) == (i == c - offset);
      }
      assert Unpack(row)[c] == Bit(row, c);
    }
  }

  // ---- Eliminating a pivot row ----

  /** (word & ~(mask - 1)) ^ mask, where mask is bit k: the bits past k. */
  function PastBit(w: Word, k: nat): Word { seq(64, i requires 0 <= i < 64 => i > k && w[i]) }

  /** The pivot row is added to a row from the pivot's word on: its first word masked to the bits past
      the pivot, the rest whole. Bit k and every bit before it stay. */
  method AddPivotWords(dest: seq<Word>, src: seq<Word>, k: nat) returns (dest': seq<Word>)
    requires |dest| == |src| && k < 64 * |src| && Bit(dest, k) && Bit(src, k)
    ensures |dest'| == |dest| && Unpack(dest') == EliminateBits(Unpack(dest), Unpack(src), k)
    ensures forall x, y :: Packs(dest, x) && Packs(src, y) && k < |x| == |y| ==> Packs(dest', EliminateBits(x, y, k))
  {
    hide Unpack, EliminateBits, Packs;
    var wordOffset := k / 64;
    var row0 := PastBit(src[wordOffset], k % 64);
    dest' := dest[wordOffset := XorWord(dest[wordOffset], row0)];
    for w := wordOffset + 1 to |dest|
      invariant |dest'| == |dest| && forall v :: w <= v < |dest| ==> dest'[v] == dest[v]
      invariant forall v :: 0 <= v < w ==> dest'[v] == if v < wordOffset then dest[v]
                  else if v == wordOffset then XorWord(dest[v], row0) else XorWord(dest[v], src[v])
    {
      dest' := dest'[w := XorWord(dest'[w], src[w])];
    }
    PivotBits(dest, src, dest', k);
    forall x, y | Packs(dest, x) && Packs(src, y) && k < |x| == |y| ensures Packs(dest', EliminateBits(x, y, k)) {
      PacksEliminated(dest, src, dest', x, y, k);
    }
  }

  lemma PacksEliminated(dest: seq<Word>, src: seq<Word>, dest': seq<Word>, x: Bits, y: Bits, k: nat)
    requires |dest| == |src| == |dest'| && Packs(dest, x) && Packs(src, y) && k < |x| == |y|
    requires Unpack(dest') == EliminateBits(Unpack(dest), Unpack(src), k)
    ensures Packs(dest', EliminateBits(x, y, k))
  {
    forall c | 0 <= c < |x| ensures Bit(dest', c) == Unpack(dest')[c] {}
  }

  lemma PivotBits(dest: seq<Word>, src: seq<Word>, dest': seq<Word>, k: nat)
    requires |dest| == |src| == |dest'| && k < 64 * |src|
    requires forall v :: 0 <= v < |dest| ==> dest'[v] == if v < k / 64 then dest[v]
               else if v == k / 64 then XorWord(dest[v], PastBit(src[v], k % 64)) else XorWord(dest[v], src[v])
    ensures Unpack(dest') == EliminateBits(Unpack(dest), Unpack(src), k)
  {
    var a, b := Unpack(dest'), EliminateBits(Unpack(dest), Unpack(src), k);
    forall c | 0 <= c < 64 * |dest| ensures a[c] == b[c] {
      assert c == 64 * (c / 64) + c % 64 && k == 64 * (k / 64) + k % 64;
    }
  }

  // ---- Window bits ----

  /** The number the low w bits of a word spell. */
  function LowNumber(word: Word, w: nat): nat
    requires w <= 64
  {
    WindowBits(word, 0, w)
  }

  /** The w bits of a row from column p on, cut out of its words: one shift, or two joined when the window straddles. */
  method ExtractWindow(row: seq<Word>, p: nat, w: nat) returns (bits: nat)
    requires 0 < w <= 7 && p + w <= 64 * |row|
    ensures bits == WindowBits(Unpack(row), p, w) && bits < Pow2(w)
    ensures forall x :: Packs(row, x) && p + w <= |x| ==> bits == WindowBits(x, p, w)
  {
    hide WindowBits, Unpack, Packs;
    var finalI := p + w - 1;
    var firstWord, shift0, lastWord := p / 64, p % 64, finalI / 64;
    if firstWord == lastWord {
      bits := LowNumber(Shr(row[firstWord], shift0), w);
      WholeWindow(row, p, w, w);
    } else {
      var shift1 := 64 - shift0;
      bits := LowNumber(Or(Shr(row[firstWord], shift0), Shl(row[firstWord + 1], shift1)), w);
      StraddlingWindow(row, p, w, w);
    }
    forall x | Packs(row, x) && p + w <= |x| ensures bits == WindowBits(x, p, w) {
      PacksWindow(row, x, p, w);
    }
  }

  lemma {:induction false} PacksWindow(row: seq<Word>, x: Bits, p: nat, w: nat)
    requires Packs(row, x) && p + w <= |x|
    ensures WindowBits(Unpack(row), p, w) == WindowBits(x, p, w)
  {
    if w > 0 {
      PacksWindow(row, x, p, w - 1);
      assert Bit(row, p + w - 1) == x[p + w - 1];
    }
  }

  lemma {:induction false} WholeWindow(row: seq<Word>, p: nat, w: nat, k: nat)
    requires 0 < w <= 7 && p + w <= 64 * |row| && k <= w && p / 64 == (p + w - 1) / 64
    ensures LowNumber(Shr(row[p / 64], p % 64), k) == WindowBits(Unpack(row), p, k)
  {
    if k > 0 {
      WholeWindow(row, p, w, k - 1);
      assert (p + k - 1) / 64 == p / 64 && (p + k - 1) % 64 == p % 64 + k - 1;
    }
  }

  lemma {:induction false} StraddlingWindow(row: seq<Word>, p: nat, w: nat, k: nat)
    requires 0 < w <= 7 && p + w <= 64 * |row| && k <= w && p / 64 != (p + w - 1) / 64
    ensures p / 64 + 1 < |row|
    ensures LowNumber(Or(Shr(row[p / 64], p % 64), Shl(row[p / 64 + 1], 64 - p % 64)), k)
              == WindowBits(Unpack(row), p, k)
  {
    if k > 0 {
      StraddlingWindow(row, p, w, k - 1);
      var c := p + k - 1;
      if p % 64 + k - 1 < 64 {
        assert c / 64 == p / 64 && c % 64 == p % 64 + k - 1;
      } else {
        assert c / 64 == p / 64 + 1 && c % 64 == p % 64 + k - 1 - 64;
      }
    }
  }
}
