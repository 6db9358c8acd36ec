/** Blocks of bytes under XOR, bit rows over GF(2), and the sums a bit row selects. */
module Blocks {

  /** A byte as its eight bits. */
  datatype Byte = Byte(b0: bool, b1: bool, b2: bool, b3: bool, b4: bool, b5: bool, b6: bool, b7: bool)

  const ZERO := Byte(false, false, false, false, false, false, false, false)
  const ONE := Byte(true, false, false, false, false, false, false, false)

  function Xor(x: Byte, y: Byte): Byte {
    Byte(x.b0 != y.b0, x.b1 != y.b1, x.b2 != y.b2, x.b3 != y.b3, x.b4 != y.b4, x.b5 != y.b5, x.b6 != y.b6, x.b7 != y.b7)
  }

  lemma XorComm(x: Byte, y: Byte)
    ensures Xor(x, y) == Xor(y, x)
  {}

  lemma XorAssoc(x: Byte, y: Byte, z: Byte)
    ensures Xor(Xor(x, y), z) == Xor(x, Xor(y, z))
  {}

  lemma XorUnit(x: Byte)
    ensures Xor(x, ZERO) == x && Xor(ZERO, x) == x && Xor(x, x) == ZERO
  {}

  lemma XorSwap(x: Byte, y: Byte, z: Byte, w: Byte)
    ensures Xor(Xor(x, y), Xor(z, w)) == Xor(Xor(x, z), Xor(y, w))
  {}

  /** A word shifted right by k bits. */
  function Half(v: nat, k: nat): nat { if k == 0 then v else Half(v / 2, k - 1) }

  /** Bit k of a word. */
  function BitOf(v: nat, k: nat): bool { Half(v, k) % 2 == 1 }

  /** The low byte of a word. */
  function ByteOf(v: nat): Byte {
    Byte(BitOf(v, 0), BitOf(v, 1), BitOf(v, 2), BitOf(v, 3), BitOf(v, 4), BitOf(v, 5), BitOf(v, 6), BitOf(v, 7))
  }

  function Pow2(k: nat): (r: nat)
    ensures r >= 1
  {
    if k == 0 then 1 else 2 * Pow2(k - 1)
  }

  /** _block_bytes: every block has this length; a partial final block is held zero-padded. */
  const BLOCK_BYTES: Size

  type Size = n: nat | 0 < n witness 1

  type Block = s: seq<Byte> | |s| == BLOCK_BYTES witness seq(BLOCK_BYTES, _ => ZERO)

  function Zero(): Block { seq(BLOCK_BYTES, _ => ZERO) }

  /** memxor */
  function Add(x: Block, y: Block): Block {
    seq(BLOCK_BYTES, i requires 0 <= i < BLOCK_BYTES => Xor(x[i], y[i]))
  }

  lemma AddComm(x: Block, y: Block)
    ensures Add(x, y) == Add(y, x)
  {}

  lemma AddAssoc(x: Block, y: Block, z: Block)
    ensures Add(Add(x, y), z) == Add(x, Add(y, z))
  {
    hide Xor;
    forall i | 0 <= i < BLOCK_BYTES ensures Add(Add(x, y), z)[i] == Add(x, Add(y, z))[i] {
      XorAssoc(x[i], y[i], z[i]);
    }
  }

  lemma AddZero(x: Block)
    ensures Add(x, Zero()) == x && Add(Zero(), x) == x
  {}

  lemma AddSelf(x: Block)
    ensures Add(x, x) == Zero()
  {}

  lemma AddSwap(x: Block, y: Block, z: Block, w: Block)
    ensures Add(Add(x, y), Add(z, w)) == Add(Add(x, z), Add(y, w))
  {
    hide Xor;
    forall i | 0 <= i < BLOCK_BYTES ensures Add(Add(x, y), Add(z, w))[i] == Add(Add(x, z), Add(y, w))[i] {
      XorSwap(x[i], y[i], z[i], w[i]);
    }
  }

  lemma AddCancel(x: Block, y: Block)
    ensures Add(Add(x, y), y) == x && Add(x, Add(x, y)) == y
  {
    hide Add;
    AddAssoc(x, y, y);
    AddAssoc(x, x, y);
    AddSelf(x);
    AddSelf(y);
    AddZero(x);
    AddZero(y);
  }

  /** x + y == z read as an equation for y. */
  lemma AddMove(x: Block, y: Block, z: Block)
    ensures Add(x, y) == z <==> y == Add(x, z)
  {
    hide Add;
    AddCancel(x, y);
    AddCancel(x, z);
  }

  function Pick(b: bool, x: Block): Block {
    if b then x else Zero()
  }

  lemma PickXor(a: bool, b: bool, x: Block)
    ensures Pick(a != b, x) == Add(Pick(a, x), Pick(b, x))
  {
    hide Add;
    AddZero(x);
    AddZero(Zero());
    AddSelf(x);
  }

  lemma PickAdd(b: bool, x: Block, y: Block)
    ensures Pick(b, Add(x, y)) == Add(Pick(b, x), Pick(b, y))
  {
    hide Add;
    AddZero(Zero());
  }

  // ---- Bit rows ----

  type Bits = seq<bool>

  function XorBits(a: Bits, b: Bits): (r: Bits)
    requires |a| == |b|
    ensures |r| == |a|
  {
    seq(|a|, i requires 0 <= i < |a| => a[i] != b[i])
  }

  function NoBits(k: nat): (r: Bits)
    ensures |r| == k
  {
    seq(k, _ => false)
  }

  function PickBits(b: bool, a: Bits): (r: Bits)
    ensures |r| == |a|
  {
    if b then a else NoBits(|a|)
  }

  lemma XorBitsLaws(a: Bits, b: Bits, c: Bits)
    requires |a| == |b| == |c|
    ensures XorBits(a, b) == XorBits(b, a) && XorBits(XorBits(a, b), c) == XorBits(a, XorBits(b, c))
    ensures XorBits(a, NoBits(|a|)) == a && XorBits(a, a) == NoBits(|a|) && XorBits(XorBits(a, b), b) == a
  {}

  lemma XorBitsSwap(a: Bits, b: Bits, c: Bits, d: Bits)
    requires |a| == |b| == |c| == |d|
    ensures XorBits(XorBits(a, b), XorBits(c, d)) == XorBits(XorBits(a, c), XorBits(b, d))
  {}

  /** The sum of the blocks a bit row selects, over its first k positions. */
  ghost function Dot(a: Bits, xs: seq<Block>, k: nat): Block
    requires k <= |a| && k <= |xs|
  {
    if k == 0 then Zero() else Add(Dot(a, xs, k - 1), Pick(a[k - 1], xs[k - 1]))
  }

  lemma {:induction false} DotXor(a: Bits, b: Bits, xs: seq<Block>, k: nat)
    requires |a| == |b| && k <= |a| && k <= |xs|
    ensures Dot(XorBits(a, b), xs, k) == Add(Dot(a, xs, k), Dot(b, xs, k))
  {
    hide Add;
    if k == 0 {
      AddZero(Zero());
    } else {
      DotXor(a, b, xs, k - 1);
      PickXor(a[k - 1], b[k - 1], xs[k - 1]);
      AddSwap(Dot(a, xs, k - 1), Dot(b, xs, k - 1), Pick(a[k - 1], xs[k - 1]), Pick(b[k - 1], xs[k - 1]));
    }
  }

  lemma {:induction false} DotNone(a: Bits, xs: seq<Block>, k: nat)
    requires k <= |a| && k <= |xs| && forall i :: 0 <= i < k ==> !a[i]
    ensures Dot(a, xs, k) == Zero()
  {
    hide Add;
    if k > 0 {
      DotNone(a, xs, k - 1);
      AddZero(Zero());
    }
  }

  lemma {:induction false} DotSame(a: Bits, b: Bits, xs: seq<Block>, ys: seq<Block>, k: nat)
    requires k <= |a| && k <= |b| && k <= |xs| && k <= |ys|
    requires forall i :: 0 <= i < k ==> a[i] == b[i] && (a[i] ==> xs[i] == ys[i])
    ensures Dot(a, xs, k) == Dot(b, ys, k)
  {
    hide Add;
    if k > 0 {
      DotSame(a, b, xs, ys, k - 1);
    }
  }

  lemma {:induction false} DotToggle(a: Bits, c: nat, xs: seq<Block>, k: nat)
    requires k <= |a| && k <= |xs| && c < |a|
    ensures Dot(a[c := !a[c]], xs, k) == if c < k then Add(Dot(a, xs, k), xs[c]) else Dot(a, xs, k)
  {
    hide Add;
    var a' := a[c := !a[c]];
    if k > 0 {
      DotToggle(a, c, xs, k - 1);
      var rest, last := Dot(a, xs, k - 1), xs[k - 1];
      if c == k - 1 {
        AddZero(rest);
        AddCancel(rest, last);
        AddZero(Add(rest, last));
      } else if c < k {
        var p := Pick(a[k - 1], last);
        AddAssoc(rest, xs[c], p);
        AddComm(xs[c], p);
        AddAssoc(rest, p, xs[c]);
      }
    }
  }
}
