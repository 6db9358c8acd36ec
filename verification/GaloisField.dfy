/** The 256-element field of the heavy rows, as the tables that implement it, and rows of its elements
    (src/fec/Wirehair.cpp). */
module GaloisField {
  import opened Blocks

  /** GF256Multiply and GF256Divide. Addition is Xor. */
  datatype Tables = Tables(mul: (Byte, Byte) -> Byte, div: (Byte, Byte) -> Byte) {
    function Mul(x: Byte, y: Byte): Byte { mul(x, y) }

    function Div(x: Byte, y: Byte): Byte { div(x, y) }
  }

  ghost predicate IsField(f: Tables) {
    && (forall x, y :: f.Mul(x, y) == f.Mul(y, x))
    && (forall x, y, z :: f.Mul(f.Mul(x, y), z) == f.Mul(x, f.Mul(y, z)))
    && (forall x, y, z :: f.Mul(x, Xor(y, z)) == Xor(f.Mul(x, y), f.Mul(x, z)))
    && (forall x :: f.Mul(ONE, x) == x)
    && (forall x, y :: y != ZERO ==> f.Mul(f.Div(x, y), y) == x)
  }

  lemma MulLaws(f: Tables, x: Byte, y: Byte, z: Byte)
    requires IsField(f)
    ensures f.Mul(x, y) == f.Mul(y, x) && f.Mul(ONE, x) == x
    ensures f.Mul(x, Xor(y, z)) == Xor(f.Mul(x, y), f.Mul(x, z))
    ensures y != ZERO ==> f.Mul(f.Div(x, y), y) == x
  {
    hide Xor;
  }

  lemma MulAssoc(f: Tables, x: Byte, y: Byte, z: Byte)
    requires IsField(f)
    ensures f.Mul(f.Mul(x, y), z) == f.Mul(x, f.Mul(y, z))
  {
    hide Xor;
  }

  lemma MulZero(f: Tables, x: Byte)
    requires IsField(f)
    ensures f.Mul(x, ZERO) == ZERO && f.Mul(ZERO, x) == ZERO
  {
    hide IsField, Xor;
    XorUnit(ZERO);
    MulLaws(f, x, ZERO, ZERO);
    XorUnit(f.Mul(x, ZERO));
  }

  lemma MulDistLeft(f: Tables, x: Byte, y: Byte, z: Byte)
    requires IsField(f)
    ensures f.Mul(Xor(x, y), z) == Xor(f.Mul(x, z), f.Mul(y, z))
  {
    hide IsField, Xor;
    MulLaws(f, z, x, y);
    MulLaws(f, z, y, y);
    MulLaws(f, z, Xor(x, y), y);
  }

  lemma MulCancel(f: Tables, x: Byte, x': Byte, y: Byte)
    requires IsField(f) && y != ZERO && f.Mul(x, y) == f.Mul(x', y)
    ensures x == x'
  {
    hide IsField, Xor;
    var inverse := f.Div(ONE, y);
    MulAssoc(f, x, y, inverse);
    MulAssoc(f, x', y, inverse);
    MulLaws(f, ONE, y, y);
    MulLaws(f, inverse, y, y);
    MulLaws(f, x, ONE, ONE);
    MulLaws(f, x', ONE, ONE);
  }

  /** Division undoes multiplication on either side. */
  lemma DivMul(f: Tables, x: Byte, y: Byte)
    requires IsField(f) && y != ZERO
    ensures f.Mul(f.Div(x, y), y) == x && f.Mul(y, f.Div(x, y)) == x && f.Div(f.Mul(y, x), y) == x
    ensures f.Div(ZERO, y) == ZERO
  {
    hide IsField, Xor;
    MulLaws(f, x, y, y);
    MulLaws(f, f.Div(x, y), y, y);
    MulLaws(f, f.Mul(y, x), y, y);
    MulLaws(f, y, x, x);
    MulCancel(f, f.Div(f.Mul(y, x), y), x, y);
    MulZero(f, y);
    MulLaws(f, ZERO, y, y);
    MulCancel(f, f.Div(ZERO, y), ZERO, y);
  }

  // ---- Blocks ----

  /** GF256MemMulAdd adds this block; GF256MemDivide replaces a block by Quotient. */
  function Scale(f: Tables, c: Byte, x: Block): Block {
    seq(BLOCK_BYTES, i requires 0 <= i < BLOCK_BYTES => f.Mul(c, x[i]))
  }

  function Quotient(f: Tables, x: Block, c: Byte): Block {
    seq(BLOCK_BYTES, i requires 0 <= i < BLOCK_BYTES => f.Div(x[i], c))
  }

  lemma ScaleAdd(f: Tables, c: Byte, x: Block, y: Block)
    requires IsField(f)
    ensures Scale(f, c, Add(x, y)) == Add(Scale(f, c, x), Scale(f, c, y))
  {
    hide Xor, IsField;
    forall i | 0 <= i < BLOCK_BYTES ensures Scale(f, c, Add(x, y))[i] == Add(Scale(f, c, x), Scale(f, c, y))[i] {
      MulLaws(f, c, x[i], y[i]);
    }
  }

  lemma ScaleXor(f: Tables, a: Byte, b: Byte, x: Block)
    requires IsField(f)
    ensures Scale(f, Xor(a, b), x) == Add(Scale(f, a, x), Scale(f, b, x))
  {
    hide Xor, IsField;
    forall i | 0 <= i < BLOCK_BYTES ensures Scale(f, Xor(a, b), x)[i] == Add(Scale(f, a, x), Scale(f, b, x))[i] {
      MulDistLeft(f, a, b, x[i]);
    }
  }

  lemma ScaleMul(f: Tables, a: Byte, b: Byte, x: Block)
    requires IsField(f)
    ensures Scale(f, f.Mul(a, b), x) == Scale(f, a, Scale(f, b, x))
  {
    hide IsField;
    forall i | 0 <= i < BLOCK_BYTES ensures Scale(f, f.Mul(a, b), x)[i] == Scale(f, a, Scale(f, b, x))[i] {
      MulAssoc(f, a, b, x[i]);
    }
  }

  lemma ScaleUnits(f: Tables, c: Byte, x: Block)
    requires IsField(f)
    ensures Scale(f, ONE, x) == x && Scale(f, ZERO, x) == Zero() && Scale(f, c, Zero()) == Zero()
  {
    hide IsField;
    forall i | 0 <= i < BLOCK_BYTES
      ensures Scale(f, ONE, x)[i] == x[i] && Scale(f, ZERO, x)[i] == ZERO && Scale(f, c, Zero())[i] == ZERO
    {
      MulZero(f, x[i]);
      MulZero(f, c);
      MulLaws(f, x[i], ONE, ONE);
    }
  }

  lemma ScaleQuotient(f: Tables, c: Byte, x: Block, y: Block)
    requires IsField(f) && c != ZERO
    ensures Scale(f, c, y) == x <==> y == Quotient(f, x, c)
  {
    hide IsField;
    forall i | 0 <= i < BLOCK_BYTES ensures f.Mul(c, f.Div(x[i], c)) == x[i] && f.Div(f.Mul(c, y[i]), c) == y[i] {
      DivMul(f, x[i], c);
      DivMul(f, y[i], c);
    }
    if y == Quotient(f, x, c) {
      assert Scale(f, c, y) == x;
    }
    if Scale(f, c, y) == x {
      assert forall i :: 0 <= i < BLOCK_BYTES ==> x[i] == f.Mul(c, y[i]);
      assert y == Quotient(f, x, c);
    }
  }

  // ---- Rows ----

  type Row = seq<Byte>

  function ZeroRow(n: nat): (r: Row)
    ensures |r| == n
  {
    seq(n, _ => ZERO)
  }

  function AddRow(a: Row, b: Row): (r: Row)
    requires |a| == |b|
    ensures |r| == |a|
  {
    seq(|a|, i requires 0 <= i < |a| => Xor(a[i], b[i]))
  }

  function ScaleRow(f: Tables, c: Byte, a: Row): (r: Row)
    ensures |r| == |a|
  {
    seq(|a|, i requires 0 <= i < |a| => f.Mul(c, a[i]))
  }

  /** A row from column k on. */
  function Tail(a: Row, k: nat): (r: Row)
    ensures |r| == |a|
  {
    seq(|a|, i requires 0 <= i < |a| => if i < k then ZERO else a[i])
  }

  /** A bit row as field elements. */
  function Lift(a: Bits): (r: Row)
    ensures |r| == |a|
  {
    seq(|a|, i requires 0 <= i < |a| => if a[i] then ONE else ZERO)
  }

  /** The combination of blocks a row selects, over its first k columns. */
  ghost function RowDot(f: Tables, a: Row, xs: seq<Block>, k: nat): Block
    requires k <= |a| && k <= |xs|
  {
    if k == 0 then Zero() else Add(RowDot(f, a, xs, k - 1), Scale(f, a[k - 1], xs[k - 1]))
  }

  lemma {:induction false} RowDotAdd(f: Tables, a: Row, b: Row, xs: seq<Block>, k: nat)
    requires IsField(f) && |a| == |b| && k <= |a| && k <= |xs|
    ensures RowDot(f, AddRow(a, b), xs, k) == Add(RowDot(f, a, xs, k), RowDot(f, b, xs, k))
  {
    hide Add, Scale, IsField, Xor;
    if k == 0 {
      AddZero(Zero());
    } else {
      RowDotAdd(f, a, b, xs, k - 1);
      ScaleXor(f, a[k - 1], b[k - 1], xs[k - 1]);
      AddSwap(RowDot(f, a, xs, k - 1), RowDot(f, b, xs, k - 1), Scale(f, a[k - 1], xs[k - 1]),
              Scale(f, b[k - 1], xs[k - 1]));
    }
  }

  lemma {:induction false} RowDotScale(f: Tables, c: Byte, a: Row, xs: seq<Block>, k: nat)
    requires IsField(f) && k <= |a| && k <= |xs|
    ensures RowDot(f, ScaleRow(f, c, a), xs, k) == Scale(f, c, RowDot(f, a, xs, k))
  {
    hide Add, Scale, IsField;
    if k == 0 {
      ScaleUnits(f, c, Zero());
    } else {
      RowDotScale(f, c, a, xs, k - 1);
      ScaleMul(f, c, a[k - 1], xs[k - 1]);
      ScaleAdd(f, c, RowDot(f, a, xs, k - 1), Scale(f, a[k - 1], xs[k - 1]));
    }
  }

  lemma {:induction false} RowDotSame(f: Tables, a: Row, b: Row, xs: seq<Block>, ys: seq<Block>, k: nat)
    requires k <= |a| && k <= |b| && k <= |xs| && k <= |ys|
    requires forall i :: 0 <= i < k ==> Scale(f, a[i], xs[i]) == Scale(f, b[i], ys[i])
    ensures RowDot(f, a, xs, k) == RowDot(f, b, ys, k)
  {
    hide Add, Scale;
    if k > 0 {
      RowDotSame(f, a, b, xs, ys, k - 1);
    }
  }

  lemma {:induction false} RowDotNone(f: Tables, a: Row, xs: seq<Block>, k: nat)
    requires IsField(f) && k <= |a| && k <= |xs| && forall i :: 0 <= i < k ==> a[i] == ZERO || xs[i] == Zero()
    ensures RowDot(f, a, xs, k) == Zero()
  {
    hide Add, Scale, IsField;
    if k > 0 {
      RowDotNone(f, a, xs, k - 1);
      ScaleUnits(f, a[k - 1], xs[k - 1]);
      AddZero(Zero());
    }
  }

  lemma {:induction false} LiftDot(f: Tables, a: Bits, xs: seq<Block>, k: nat)
    requires IsField(f) && k <= |a| && k <= |xs|
    ensures RowDot(f, Lift(a), xs, k) == Dot(a, xs, k)
  {
    hide Add, Scale, IsField;
    if k > 0 {
      LiftDot(f, a, xs, k - 1);
      ScaleUnits(f, ONE, xs[k - 1]);
    }
  }
}
