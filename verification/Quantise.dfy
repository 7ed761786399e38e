/** The two block formats a cache is converted between, in exact reals: codes, packing, and how far a value can move. */
module Quantise {
  import opened Wrappers

  const BLOCK := 32
  const HALF := 16

  type Block = b: seq<real> | |b| == BLOCK witness seq(BLOCK, _ => 0.0)

  function Abs(x: real): (r: real)
    ensures r >= 0.0 && (r == x || r == -x)
  {
    if x >= 0.0 then x else -x
  }

  /** `np.abs(values).argmax()`: the first index of the largest magnitude. */
  function ArgMax(values: seq<real>): (k: nat)
    requires values != []
    ensures k < |values|
    ensures forall i :: 0 <= i < |values| ==> Abs(values[i]) <= Abs(values[k])
    ensures forall i :: 0 <= i < k ==> Abs(values[i]) < Abs(values[k])
  {
    if |values| == 1 then 0 else
    var front := values[..|values| - 1];
    var k := ArgMax(front);
    if Abs(values[|values| - 1]) > Abs(front[k]) then |values| - 1 else k
  }

  /** `np.abs(values).max()` */
  function AbsMax(values: seq<real>): real
    requires values != []
  {
    Abs(values[ArgMax(values)])
  }

  /** `np.rint`: to the nearest integer, ties to even. */
  function Rint(x: real): (n: int)
    ensures Abs(x - n as real) <= 0.5
    ensures x == x.Floor as real ==> n as real == x
  {
    var f := x.Floor;
    var d := x - f as real;
    if d < 0.5 || (d == 0.5 && f % 2 == 0) then f else f + 1
  }

  /** A float cast to an integer type: towards zero. */
  function Truncate(x: real): int {
    if x >= 0.0 then x.Floor else -(-x).Floor
  }

  /** `astype(np.int8)` */
  function AsInt8(n: int): int {
    (n + 128) % 256 - 128
  }

  /** The reciprocal scale, zero for an all-zero block. */
  function Inverse(d: real): (r: real)
    ensures d != 0.0 ==> d * r == 1.0
  {
    if d != 0.0 then Reciprocal(d) else 0.0
  }

  function Reciprocal(d: real): (r: real)
    requires d != 0.0
    ensures d * r == 1.0
  {
    1.0 / d
  }

  /** A value in units of the scale. */
  function Scaled(x: real, d: real): real {
    x * Inverse(d)
  }

  /** A code back in the units of the values. */
  function Rescaled(code: real, d: real): real {
    d * code
  }

  // ---------------------------------------------------------------------------
  // q8_0
  // ---------------------------------------------------------------------------

  datatype Q8 = Q8(d: real, codes: seq<int>)

  function Q8Scale(block: Block): real {
    AbsMax(block) / 127.0
  }

  function Q8Code(x: real, d: real): int {
    AsInt8(Rint(Scaled(x, d)))
  }

  function QuantiseQ8(block: Block): (q: Q8)
    ensures |q.codes| == BLOCK
  {
    var d := Q8Scale(block);
    Q8(d, seq(BLOCK, i requires 0 <= i < BLOCK => Q8Code(block[i], d)))
  }

  function DequantiseQ8(q: Q8): (r: seq<real>)
    ensures |r| == |q.codes|
  {
    seq(|q.codes|, i requires 0 <= i < |q.codes| => Rescaled(q.codes[i] as real, q.d))
  }

  // ---------------------------------------------------------------------------
  // q4_0
  // ---------------------------------------------------------------------------

  type Packed = p: seq<bv8> | |p| == HALF witness seq(HALF, _ => 0)

  datatype Q4 = Q4(d: real, packed: Packed)

  function Q4Scale(block: Block): real {
    block[ArgMax(block)] / -8.0
  }

  function Q4Code(x: real, d: real): int {
    Wrappers.Min(15, AsInt8(Truncate(Scaled(x, d) + 8.5)))
  }

  function Pair(lo: bv8, hi: bv8): bv8 {
    lo | (hi << 4)
  }

  function Low(b: bv8): bv8 {
    b & 0x0F
  }

  function High(b: bv8): bv8 {
    b >> 4
  }

  /** Element j of the low half shares a byte with element j of the high half. */
  function Pack(codes: seq<bv8>): (packed: seq<bv8>)
    requires |codes| == BLOCK
    ensures |packed| == HALF
  {
    seq(HALF, j requires 0 <= j < HALF => Pair(codes[j], codes[HALF + j]))
  }

  function Unpack(packed: seq<bv8>): (codes: seq<bv8>)
    requires |packed| == HALF
    ensures |codes| == BLOCK
  {
    seq(HALF, j requires 0 <= j < HALF => Low(packed[j])) + seq(HALF, j requires 0 <= j < HALF => High(packed[j]))
  }

  function Q4Codes(block: Block): (codes: seq<int>)
    ensures |codes| == BLOCK
  {
    var d := Q4Scale(block);
    seq(BLOCK, i requires 0 <= i < BLOCK => Q4Code(block[i], d))
  }

  /** `astype(np.uint8)` */
  function AsByte(n: int): bv8 {
    (n % 256) as bv8
  }

  function Q4Bytes(block: Block): (bytes: seq<bv8>)
    ensures |bytes| == BLOCK
  {
    seq(BLOCK, i requires 0 <= i < BLOCK => AsByte(Q4Codes(block)[i]))
  }

  function QuantiseQ4(block: Block): Q4 {
    Q4(Q4Scale(block), Pack(Q4Bytes(block)))
  }

  function DequantiseQ4(q: Q4): (r: seq<real>)
    ensures |r| == BLOCK
  {
    var codes := Unpack(q.packed);
    seq(BLOCK, i requires 0 <= i < BLOCK => Rescaled((codes[i] as int) as real - 8.0, q.d))
  }

  // ---------------------------------------------------------------------------
  // How far a value moves
  // ---------------------------------------------------------------------------

  /** An error of at most e in units of the scale is an error of at most e times the scale's magnitude. */
  lemma ScaledError(d: real, s: real, c: real, e: real)
    requires Abs(s - c) <= e
    ensures Abs(Rescaled(s, d) - Rescaled(c, d)) <= Abs(d) * e
  {
    assert d * s - d * c == d * (s - c);
    ProductBound(Abs(d), Abs(s - c), e);
    assert Abs(d * (s - c)) == Abs(d) * Abs(s - c) by { AbsProduct(d, s - c); }
  }

  lemma ProductBound(a: real, x: real, y: real)
    requires a >= 0.0 && x <= y
    ensures a * x <= a * y
  {
  }

  lemma AbsProduct(a: real, b: real)
    ensures Abs(a * b) == Abs(a) * Abs(b)
  {
    if a >= 0.0 {
      if b >= 0.0 { assert a * b >= 0.0; } else { assert a * -b >= 0.0; assert a * b == -(a * -b); }
    } else {
      if b >= 0.0 { assert -a * b >= 0.0; assert a * b == -(-a * b); } else { assert -a * -b >= 0.0; assert a * b == -a * -b; }
    }
  }

  /** In units of the scale, a value no larger than the block's largest magnitude stays within that magnitude's units. */
  lemma ScaledRange(x: real, d: real, top: real)
    requires d != 0.0 && Abs(x) <= Abs(d) * top
    ensures Abs(Scaled(x, d)) <= top && Rescaled(Scaled(x, d), d) == x
  {
    var s := Scaled(x, d);
    assert d * s == x * (d * Inverse(d));
    AbsProduct(d, s);
    if Abs(s) > top {
      ProductStrict(Abs(d), top, Abs(s));
    }
  }

  lemma ScaledZero(d: real)
    ensures Scaled(0.0, d) == 0.0
  {
  }

  lemma ProductStrict(a: real, x: real, y: real)
    requires a > 0.0 && x < y
    ensures a * x < a * y
  {
  }

  lemma Q8Step(x: real, d: real)
    requires d != 0.0 && Abs(x) <= Abs(d) * 127.0
    ensures -127 <= Q8Code(x, d) <= 127 && Abs(x - Rescaled(Q8Code(x, d) as real, d)) <= Abs(d) * 0.5
  {
    hide Inverse, Rint, AsInt8, Scaled, Rescaled;
    var s := Scaled(x, d);
    ScaledRange(x, d, 127.0);
    RintRange(s);
    ScaledError(d, s, Rint(s) as real, 0.5);
  }

  lemma Q8Scalar(x: real, top: real)
    requires Abs(x) <= top
    ensures
      var d := top / 127.0;
      -127 <= Q8Code(x, d) <= 127 && Abs(x - Rescaled(Q8Code(x, d) as real, d)) <= top / 254.0
  {
    var d := top / 127.0;
    if d != 0.0 {
      hide Q8Code, Rescaled;
      Q8Step(x, d);
    } else {
      ScaledZero(d);
      hide Scaled;
      assert Rint(0.0) == 0;
      assert Q8Code(x, d) == 0;
    }
  }

  /** Every q8_0 code fits its signed byte without the cast ever wrapping, symmetrically, and no value moves by more than half
      a step: the largest magnitude over 254. */
  lemma Q8Bound(block: Block, i: nat)
    requires i < BLOCK
    ensures
      var q := QuantiseQ8(block);
      && -127 <= q.codes[i] <= 127
      && Abs(block[i] - DequantiseQ8(q)[i]) <= AbsMax(block) / 254.0
  {
    hide Q8Code, ArgMax, Rescaled;
    assert Abs(block[i]) <= AbsMax(block);
    Q8Scalar(block[i], AbsMax(block));
  }

  lemma RintRange(s: real)
    requires Abs(s) <= 127.0
    ensures -127 <= Rint(s) <= 127 && AsInt8(Rint(s)) == Rint(s)
  {
  }

  /** The value whose code 16 does not fit in four bits. */
  predicate Clipped(x: real, d: real) {
    Scaled(x, d) >= 7.5
  }

  /** Every q4_0 code fits four bits; a value moves by at most half a step unless its code was clipped at 15, and then by at most
      a whole one; a step is an eighth of the largest magnitude. The value the scale was taken from survives exactly. */
  lemma {:induction false} Q4Bound(block: Block, i: nat)
    requires i < BLOCK
    ensures
      var q := QuantiseQ4(block);
      var moved := Abs(block[i] - DequantiseQ4(q)[i]);
      && 0 <= Q4Codes(block)[i] <= 15
      && moved <= AbsMax(block) / 8.0
      && (!Clipped(block[i], q.d) ==> moved <= AbsMax(block) / 16.0)
      && (Clipped(block[i], q.d) ==> Q4Codes(block)[i] == 15)
      && DequantiseQ4(q)[ArgMax(block)] == block[ArgMax(block)]
  {
    hide QuantiseQ4, DequantiseQ4, Q4Codes, Q4Scale, ArgMax, Clipped;
    CodeSurvives(block, i);
    CodeSurvives(block, ArgMax(block));
    CodeBound(block, i);
    ExtremeCode(block);
    ScaleKept(block);
  }

  lemma ScaleKept(block: Block)
    ensures QuantiseQ4(block).d == Q4Scale(block)
  {
  }

  /** Packing two codes to a byte and unpacking them again is the identity on four-bit codes. */
  lemma PackInverse(codes: seq<bv8>)
    requires |codes| == BLOCK && forall i :: 0 <= i < BLOCK ==> codes[i] < 16
    ensures Unpack(Pack(codes)) == codes
  {
    var back := Unpack(Pack(codes));
    forall i | 0 <= i < BLOCK ensures back[i] == codes[i] {
      var j := if i < HALF then i else i - HALF;
      NibblesApart(codes[j], codes[HALF + j]);
    }
  }

  lemma NibblesApart(lo: bv8, hi: bv8)
    requires lo < 16 && hi < 16
    ensures Low(Pair(lo, hi)) == lo && High(Pair(lo, hi)) == hi
  {
  }

  lemma CodeSurvives(block: Block, i: nat)
    requires i < BLOCK
    ensures DequantiseQ4(QuantiseQ4(block))[i] == Rescaled(Q4Codes(block)[i] as real - 8.0, Q4Scale(block))
  {
    hide Q4Codes, Q4Scale, Unpack, Pack, Clipped, ArgMax, Rescaled;
    forall j | 0 <= j < BLOCK ensures Q4Bytes(block)[j] < 16 && Q4Bytes(block)[j] as int == Q4Codes(block)[j] {
      CodeBound(block, j);
      SmallByte(Q4Codes(block)[j]);
    }
    hide Q4Bytes;
    PackInverse(Q4Bytes(block));
  }

  lemma SmallByte(n: int)
    requires 0 <= n <= 15
    ensures AsByte(n) < 16 && AsByte(n) as int == n
  {
  }

  lemma Q4Step(x: real, d: real)
    requires d != 0.0 && Abs(x) <= Abs(d) * 8.0
    ensures
      var moved := Abs(x - Rescaled(Q4Code(x, d) as real - 8.0, d));
      && 0 <= Q4Code(x, d) <= 15
      && (!Clipped(x, d) ==> moved <= Abs(d) * 0.5)
      && (Clipped(x, d) ==> moved <= Abs(d) * 1.0 && Q4Code(x, d) == 15)
  {
    hide Inverse, Truncate, AsInt8, Scaled, Rescaled;
    var s := Scaled(x, d);
    ScaledRange(x, d, 8.0);
    TruncateRange(s);
    if s >= 7.5 {
      ScaledError(d, s, Q4Code(x, d) as real - 8.0, 1.0);
    } else {
      ScaledError(d, s, Q4Code(x, d) as real - 8.0, 0.5);
    }
  }

  lemma Q4Scalar(x: real, extreme: real)
    requires Abs(x) <= Abs(extreme)
    ensures
      var d := extreme / -8.0;
      var moved := Abs(x - Rescaled(Q4Code(x, d) as real - 8.0, d));
      && 0 <= Q4Code(x, d) <= 15
      && moved <= Abs(extreme) / 8.0
      && (!Clipped(x, d) ==> moved <= Abs(extreme) / 16.0)
      && (Clipped(x, d) ==> Q4Code(x, d) == 15)
  {
    var d := extreme / -8.0;
    assert Abs(d) * 8.0 == Abs(extreme);
    if d != 0.0 {
      hide Q4Code, Clipped, Rescaled;
      Q4Step(x, d);
    } else {
      ScaledZero(d);
      hide Scaled;
      assert Truncate(8.5) == 8;
      assert Q4Code(x, d) == 8;
    }
  }

  lemma CodeBound(block: Block, i: nat)
    requires i < BLOCK
    ensures
      var d, code := Q4Scale(block), Q4Codes(block)[i];
      && 0 <= code <= 15
      && Abs(block[i] - Rescaled(code as real - 8.0, d)) <= AbsMax(block) / 8.0
      && (!Clipped(block[i], d) ==> Abs(block[i] - Rescaled(code as real - 8.0, d)) <= AbsMax(block) / 16.0)
      && (Clipped(block[i], d) ==> code == 15)
  {
    hide Q4Code, Clipped, ArgMax, Rescaled;
    Q4Scalar(block[i], block[ArgMax(block)]);
  }

  lemma TruncateRange(s: real)
    requires Abs(s) <= 8.0
    ensures
      var code := Wrappers.Min(15, AsInt8(Truncate(s + 8.5)));
      && 0 <= code <= 15 && (s >= 7.5 ==> code == 15)
      && Abs(s - (code as real - 8.0)) <= if s >= 7.5 then 1.0 else 0.5
  {
    var t := Truncate(s + 8.5);
    assert 0 <= t <= 16;
    assert AsInt8(t) == t;
  }

  lemma ExtremeScalar(extreme: real)
    ensures Rescaled(Q4Code(extreme, extreme / -8.0) as real - 8.0, extreme / -8.0) == extreme
  {
    hide Inverse;
    var d := extreme / -8.0;
    var s := Scaled(extreme, d);
    if d != 0.0 {
      assert extreme == -8.0 * d;
      assert s == -8.0 * (d * Inverse(d));
      assert Q4Code(extreme, d) == 0;
    } else {
      assert extreme == 0.0;
    }
  }

  lemma {:induction false} ExtremeCode(block: Block)
    ensures Rescaled(Q4Codes(block)[ArgMax(block)] as real - 8.0, Q4Scale(block)) == block[ArgMax(block)]
  {
    hide Q4Code, ArgMax, Rescaled;
    ExtremeScalar(block[ArgMax(block)]);
  }

  // ---------------------------------------------------------------------------
  // Whole tensors
  // ---------------------------------------------------------------------------

  datatype QuantiseError = PartialBlock

  function Blocks(values: seq<real>): (r: seq<Block>)
    requires |values| % BLOCK == 0
    ensures |r| == |values| / BLOCK
    ensures forall k, i :: 0 <= k < |r| && 0 <= i < BLOCK ==> r[k][i] == values[k * BLOCK + i]
  {
    seq(|values| / BLOCK, k requires 0 <= k < |values| / BLOCK => values[k * BLOCK..k * BLOCK + BLOCK])
  }

  function QuantiseTensorQ8(values: seq<real>): Result<seq<Q8>, QuantiseError> {
    if |values| % BLOCK != 0 then Failure(PartialBlock) else
    var blocks := Blocks(values);
    Success(seq(|blocks|, k requires 0 <= k < |blocks| => QuantiseQ8(blocks[k])))
  }

  function QuantiseTensorQ4(values: seq<real>): Result<seq<Q4>, QuantiseError> {
    if |values| % BLOCK != 0 then Failure(PartialBlock) else
    var blocks := Blocks(values);
    Success(seq(|blocks|, k requires 0 <= k < |blocks| => QuantiseQ4(blocks[k])))
  }

  function DequantiseTensor<Q>(blocks: seq<Q>, decode: Q -> seq<real>): seq<real> {
    if blocks == [] then [] else DequantiseTensor(blocks[..|blocks| - 1], decode) + decode(blocks[|blocks| - 1])
  }

  lemma {:induction false} DequantiseAt<Q>(blocks: seq<Q>, decode: Q -> seq<real>, k: nat, i: nat)
    requires k < |blocks| && i < BLOCK && forall j :: 0 <= j < |blocks| ==> |decode(blocks[j])| == BLOCK
    ensures |DequantiseTensor(blocks, decode)| == |blocks| * BLOCK
    ensures k * BLOCK + i < |blocks| * BLOCK
    ensures DequantiseTensor(blocks, decode)[k * BLOCK + i] == decode(blocks[k])[i]
    decreases |blocks|
  {
    var front := blocks[..|blocks| - 1];
    if front != [] {
      DequantiseAt(front, decode, if k < |front| then k else 0, i);
    }
    if k < |front| {
      assert DequantiseTensor(front, decode)[k * BLOCK + i] == decode(front[k])[i];
    }
  }

  /** Quantising a tensor of any number of blocks and reading it back moves no value further than its own block allows. */
  lemma TensorQ8Bound(values: seq<real>, n: nat)
    requires |values| % BLOCK == 0 && n < |values|
    ensures
      var back := DequantiseTensor(QuantiseTensorQ8(values).value, DequantiseQ8);
      |back| == |values| && Abs(values[n] - back[n]) <= AbsMax(Blocks(values)[n / BLOCK]) / 254.0
  {
    hide QuantiseQ8, ArgMax;
    var k, i := n / BLOCK, n % BLOCK;
    var qs := QuantiseTensorQ8(values).value;
    DequantiseAt(qs, DequantiseQ8, k, i);
    Q8Bound(Blocks(values)[k], i);
  }

  lemma TensorQ4Bound(values: seq<real>, n: nat)
    requires |values| % BLOCK == 0 && n < |values|
    ensures
      var back := DequantiseTensor(QuantiseTensorQ4(values).value, DequantiseQ4);
      var block := Blocks(values)[n / BLOCK];
      && |back| == |values| && Abs(values[n] - back[n]) <= AbsMax(block) / 8.0
      && (!Clipped(values[n], Q4Scale(block)) ==> Abs(values[n] - back[n]) <= AbsMax(block) / 16.0)
  {
    hide QuantiseQ4, DequantiseQ4, Q4Scale, Clipped, ArgMax;
    var k, i := n / BLOCK, n % BLOCK;
    var qs := QuantiseTensorQ4(values).value;
    DequantiseAt(qs, DequantiseQ4, k, i);
    Q4Bound(Blocks(values)[k], i);
    ScaleKept(Blocks(values)[k]);
  }
}
