/** Adding a binary row times a byte to a heavy row four columns at a time (src/fec/Wirehair.cpp:2389-2408,
    2497-2545). */
module HeavyWindow {
  import opened Blocks
  import opened GaloisField

  /** GF256_MULT_LOOKUP: a byte of one for each of four bits. */
  const MULT_LOOKUP: seq<nat> := [
    0x00000000, 0x00000001, 0x00000100, 0x00000101,
    0x00010000, 0x00010001, 0x00010100, 0x00010101,
    0x01000000, 0x01000001, 0x01000100, 0x01000101,
    0x01010000, 0x01010001, 0x01010100, 0x01010101
  ]

  /** Bit c of a packed row, whose last word is padded with zeros. */
  predicate Set(u: Bits, c: nat) { c < |u| && u[c] }

  function One(b: bool): nat { if b then 1 else 0 }

  /** The four bits from column c on. */
  function FourBits(u: Bits, c: nat): (x: nat)
    ensures x < 16
  {
    One(Set(u, c)) + 2 * One(Set(u, c + 1)) + 4 * One(Set(u, c + 2)) + 8 * One(Set(u, c + 3))
  }

  /** A bit below a number. */
  function Join(b: bool, w: nat): nat { One(b) + 2 * w }

  /** A byte as a number. */
  function Number(b: Byte): (n: nat)
    ensures n < 256
  {
    Join(b.b0, Join(b.b1, Join(b.b2, Join(b.b3, Join(b.b4, Join(b.b5, Join(b.b6, Join(b.b7, 0))))))))
  }

  /** Byte i of a word. */
  function Lane(x: nat, i: nat): Byte { ByteOf(Half(x, 8 * i)) }

  /** A word is added to the four bytes at a place. */
  function AddWord(row: Row, at: nat, x: nat): (r: Row)
    ensures |r| == |row|
  {
    seq(|row|, j requires 0 <= j < |row| => if at <= j < at + 4 then Xor(row[j], Lane(x, j - at)) else row[j])
  }

  lemma JoinBit(b: bool, w: nat)
    ensures BitOf(Join(b, w), 0) == b && forall k: nat :: BitOf(Join(b, w), k + 1) == BitOf(w, k)
  {
    var v := Join(b, w);
    assert Half(v, 0) == v && v / 2 == w;
    forall k: nat ensures BitOf(v, k + 1) == BitOf(w, k) {
      assert Half(v, k + 1) == Half(w, k);
    }
  }

  lemma NumberBack(b: Byte)
    ensures ByteOf(Number(b)) == b
  {
    hide BitOf, Join;
    var n7 := Join(b.b7, 0);
    var n6 := Join(b.b6, n7);
    var n5 := Join(b.b5, n6);
    var n4 := Join(b.b4, n5);
    var n3 := Join(b.b3, n4);
    var n2 := Join(b.b2, n3);
    var n1 := Join(b.b1, n2);
    JoinBit(b.b7, 0);
    JoinBit(b.b6, n7);
    JoinBit(b.b5, n6);
    JoinBit(b.b4, n5);
    JoinBit(b.b3, n4);
    JoinBit(b.b2, n3);
    JoinBit(b.b1, n2);
    JoinBit(b.b0, n1);
  }

  lemma {:induction false} BitLow(a: nat, z: nat, m: nat, k: nat)
    requires k < m
    ensures BitOf(a + Pow2(m) * z, k) == BitOf(a, k)
  {
    var p := Pow2(m - 1) * z;
    assert Pow2(m) * z == 2 * p;
    assert (a + 2 * p) / 2 == a / 2 + p && (a + 2 * p) % 2 == a % 2;
    if k > 0 {
      BitLow(a / 2, z, m - 1, k - 1);
    }
  }

  /** A byte does not see what lies above it. */
  lemma ByteOfLow(a: nat, z: nat)
    ensures ByteOf(a + 256 * z) == ByteOf(a)
  {
    hide BitOf;
    assert Pow2(8) == 256 by {
      assert Pow2(4) == 16;
    }
    forall k: nat | k < 8 ensures BitOf(a + 256 * z, k) == BitOf(a, k) {
      BitLow(a, z, 8, k);
    }
  }

  lemma {:induction false} HalfStep(v: nat, k: nat)
    ensures Half(v, k + 8) == Half(v / 256, k)
  {
    var a, b, c, d := v / 2, v / 2 / 2, v / 2 / 2 / 2, v / 2 / 2 / 2 / 2;
    assert Half(v, k + 8) == Half(a, k + 7) == Half(b, k + 6) == Half(c, k + 5) == Half(d, k + 4);
    assert Half(d, k + 4) == Half(d / 2, k + 3) == Half(d / 2 / 2, k + 2) == Half(d / 2 / 2 / 2, k + 1)
           == Half(d / 2 / 2 / 2 / 2, k);
    assert d / 2 / 2 / 2 / 2 == v / 256;
  }

  /** The bytes of a word put together from four. */
  lemma LanesOf(x: nat, y: nat, z: nat, w: nat)
    requires x < 256 && y < 256 && z < 256
    ensures var v := x + 256 * (y + 256 * (z + 256 * w));
            Lane(v, 0) == ByteOf(x) && Lane(v, 1) == ByteOf(y) && Lane(v, 2) == ByteOf(z) && Lane(v, 3) == ByteOf(w)
  {
    hide ByteOf;
    var v3, v2 := w, z + 256 * w;
    var v1 := y + 256 * v2;
    var v := x + 256 * v1;
    assert v / 256 == v1 && v1 / 256 == v2 && v2 / 256 == v3;
    HalfStep(v, 0);
    HalfStep(v, 8);
    HalfStep(v1, 0);
    HalfStep(v, 16);
    HalfStep(v1, 8);
    HalfStep(v2, 0);
    assert Half(v, 0) == v && Half(v1, 0) == v1 && Half(v2, 0) == v2 && Half(v3, 0) == v3;
    ByteOfLow(x, v1);
    ByteOfLow(y, v2);
    ByteOfLow(z, v3);
  }

  /** The looked-up word times a byte value: no carries, and in each lane the byte or nothing. */
  lemma WindowLanes(u: Bits, c: nat, code: Byte, i: nat)
    requires i < 4
    ensures Lane(MULT_LOOKUP[FourBits(u, c)] * Number(code), i) == if Set(u, c + i) then code else ZERO
  {
    hide Number, Lane, FourBits, Set;
    var n, b0, b1, b2, b3 := Number(code), Set(u, c), Set(u, c + 1), Set(u, c + 2), Set(u, c + 3);
    LookupIs(u, c);
    Spread(One(b0), One(b1), One(b2), One(b3), n);
    Small(b0, n);
    Small(b1, n);
    Small(b2, n);
    LanesOf(One(b0) * n, One(b1) * n, One(b2) * n, One(b3) * n);
    OneLane(b0, code);
    OneLane(b1, code);
    OneLane(b2, code);
    OneLane(b3, code);
  }

  lemma LookupIs(u: Bits, c: nat)
    ensures MULT_LOOKUP[FourBits(u, c)] ==
            One(Set(u, c)) + 256 * (One(Set(u, c + 1)) + 256 * (One(Set(u, c + 2)) + 256 * One(Set(u, c + 3))))
  {
    hide Set;
  }

  lemma Spread(x: nat, y: nat, z: nat, w: nat, n: nat)
    ensures (x + 256 * (y + 256 * (z + 256 * w))) * n == x * n + 256 * (y * n + 256 * (z * n + 256 * (w * n)))
  {}

  lemma Small(b: bool, n: nat)
    requires n < 256
    ensures One(b) * n < 256
  {}

  lemma OneLane(b: bool, code: Byte)
    ensures ByteOf(One(b) * Number(code)) == if b then code else ZERO
  {
    hide Number, ByteOf;
    NumberBack(code);
    NumberBack(ZERO);
    NumberZero();
  }

  lemma NumberZero()
    ensures Number(ZERO) == 0
  {}

  /** h with code added in the columns from k + 1 to c - 1 that u has; column fhc is h's first. */
  ghost predicate AddedUpTo(h: Row, u: Bits, k: nat, fhc: nat, code: Byte, c: nat, row: Row) {
    |row| == |h| && forall j :: 0 <= j < |h| ==> row[j] == if k < j + fhc < c && Set(u, j + fhc) then Xor(h[j], code)
                                                           else h[j]
  }

  /** One of the columns before the first aligned one. */
  method AddColumn(row: Row, u: Bits, c: nat, fhc: nat, code: Byte, ghost h: Row, ghost k: nat) returns (row': Row)
    requires fhc <= k < c && |u| == fhc + |h| && AddedUpTo(h, u, k, fhc, code, c, row)
    ensures AddedUpTo(h, u, k, fhc, code, c + 1, row')
  {
    hide Xor;
    row' := row;
    if Set(u, c) {
      row' := row[c - fhc := Xor(row[c - fhc], code)];
    }
  }

  /** Four aligned columns: one lookup, one multiplication, one word added. */
  method AddFour(row: Row, u: Bits, c: nat, fhc: nat, code: Byte, ghost h: Row, ghost k: nat) returns (row': Row)
    requires fhc <= k < c && |u| == fhc + |h| && AddedUpTo(h, u, k, fhc, code, c, row)
    ensures AddedUpTo(h, u, k, fhc, code, c + 4, row')
  {
    hide Xor, Lane, FourBits, Number;
    var product := MULT_LOOKUP[FourBits(u, c)] * Number(code);
    row' := AddWord(row, c - fhc, product);
    forall j | 0 <= j < |h|
      ensures row'[j] == if k < j + fhc < c + 4 && Set(u, j + fhc) then Xor(h[j], code) else h[j]
    {
      if c <= j + fhc < c + 4 {
        WindowLanes(u, c, code, j + fhc - c);
        XorUnit(h[j]);
      }
    }
  }

  /** The heavy row with the binary row u times code added, from column k + 1 on. */
  method AddBinaryRow(h: Row, u: Bits, k: nat, fhc: nat, code: Byte) returns (row: Row)
    requires fhc <= k < |u| == fhc + |h|
    ensures AddedUpTo(h, u, k, fhc, code, |u|, row)
  {
    hide AddedUpTo;
    AddedNone(h, u, k, fhc, code);
    row := h;
    var oddCount, c := k % 4, k + 1;
    if oddCount == 0 {
      row := AddColumn(row, u, c, fhc, code, h, k);
      c := c + 1;
    }
    if oddCount <= 1 {
      row := AddColumn(row, u, c, fhc, code, h, k);
      c := c + 1;
    }
    if oddCount <= 2 {
      row := AddColumn(row, u, c, fhc, code, h, k);
      c := k + (4 - oddCount);
    }
    while c < |u|
      invariant k < c && c % 4 == 0 && AddedUpTo(h, u, k, fhc, code, c, row)
    {
      row := AddFour(row, u, c, fhc, code, h, k);
      c := c + 4;
    }
    AddedAll(h, u, k, fhc, code, c, row);
  }

  lemma AddedNone(h: Row, u: Bits, k: nat, fhc: nat, code: Byte)
    ensures AddedUpTo(h, u, k, fhc, code, k + 1, h)
  {}

  lemma AddedAll(h: Row, u: Bits, k: nat, fhc: nat, code: Byte, c: nat, row: Row)
    requires AddedUpTo(h, u, k, fhc, code, c, row) && |u| == fhc + |h| <= c
    ensures AddedUpTo(h, u, k, fhc, code, |u|, row)
  {}
}
