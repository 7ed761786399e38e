/** The two block formats, value by value and bit by bit. */
module BlockFormats {
  import opened Wrappers
  import opened Quantise

  /** The integer nearest to s, the even one of two. */
  predicate IsNearestEven(s: real, n: int) {
    s - 0.5 <= n as real <= s + 0.5 && (n as real == s - 0.5 || n as real == s + 0.5 ==> n % 2 == 0)
  }

  /** The k-th value is the first of the largest magnitude. */
  predicate IsLargest(block: Block, k: nat) {
    k < 32 && (forall j :: 0 <= j < 32 ==> Abs(block[j]) <= Abs(block[k])) && forall j :: 0 <= j < k ==> Abs(block[j]) < Abs(block[k])
  }

  /** The four bits of the i-th value: low halves of the bytes first, then high halves. */
  function Nibble(packed: seq<bv8>, i: nat): int
    requires |packed| == 16 && i < 32
  {
    if i < 16 then packed[i] as int % 16 else packed[i - 16] as int / 16
  }

  /** A q8_0 block: the scale is a 127th of the largest magnitude, each code the nearest multiple of it. */
  lemma Q8Exactly(block: Block, i: nat, k: nat)
    requires i < 32 && IsLargest(block, k)
    ensures
      var q := QuantiseQ8(block);
      && |q.codes| == 32 && 127.0 * q.d == Abs(block[k])
      && if q.d == 0.0 then q.codes[i] == 0 else IsNearestEven(block[i] / q.d, q.codes[i])
  {
    hide ArgMax, Q8Code, IsNearestEven;
    LargestIsFound(block, k);
    Q8CodeExactly(block[i], Q8Scale(block));
  }

  lemma Q8CodeExactly(x: real, d: real)
    requires Abs(x) <= 127.0 * Abs(d)
    ensures if d == 0.0 then Q8Code(x, d) == 0 else IsNearestEven(x / d, Q8Code(x, d))
  {
    hide Scaled, Rint, AsInt8, IsNearestEven;
    if d != 0.0 {
      ScaledIsQuotient(x, d);
      ScaledRange(x, d, 127.0);
    } else {
      ScaledZero(d);
    }
    RoundsToEven(Scaled(x, d));
    SmallStays(Scaled(x, d));
  }

  lemma SmallStays(s: real)
    requires Abs(s) <= 127.0
    ensures AsInt8(Rint(s)) == Rint(s) && (s == 0.0 ==> Rint(s) == 0)
  {
    var n := Rint(s);
    assert -127 <= n <= 127;
  }

  lemma LargestIsFound(block: Block, k: nat)
    requires IsLargest(block, k)
    ensures ArgMax(block) == k
  {
  }

  lemma ScaledIsQuotient(x: real, d: real)
    requires d != 0.0
    ensures Scaled(x, d) == x / d
  {
    assert x / d == x * (1.0 / d);
  }

  lemma RoundsToEven(s: real)
    ensures IsNearestEven(s, Rint(s))
  {
  }

  /** A q4_0 block: the scale is minus an eighth of the first largest value, each code the quotient by it, 8 higher and rounded. */
  lemma Q4Exactly(block: Block, i: nat, k: nat)
    requires i < 32 && IsLargest(block, k)
    ensures
      var q := QuantiseQ4(block);
      var code := Nibble(q.packed, i);
      && -8.0 * q.d == block[k]
      && if q.d == 0.0 then code == 8
         else
           var s := block[i] / q.d + 8.5;
           code as real <= s && (s < code as real + 1.0 || code == 15)
  {
    hide ArgMax, Q4Code, Nibble;
    LargestIsFound(block, k);
    CodeIsNibble(block, i);
    Q4CodeExactly(block[i], Q4Scale(block));
  }

  lemma Q4CodeExactly(x: real, d: real)
    requires Abs(x) <= 8.0 * Abs(d)
    ensures
      if d == 0.0 then Q4Code(x, d) == 8
      else
        var s := x / d + 8.5;
        Q4Code(x, d) as real <= s && (s < Q4Code(x, d) as real + 1.0 || Q4Code(x, d) == 15)
  {
    hide Scaled, Truncate, AsInt8;
    if d != 0.0 {
      ScaledIsQuotient(x, d);
      ScaledRange(x, d, 8.0);
      CodeOf(Scaled(x, d));
    } else {
      ScaledZero(d);
      CodeOf(Scaled(x, d));
    }
  }

  lemma CodeOf(s: real)
    requires Abs(s) <= 8.0
    ensures var code := Wrappers.Min(15, AsInt8(Truncate(s + 8.5)));
      code as real <= s + 8.5 && (s + 8.5 < code as real + 1.0 || code == 15)
  {
    var n := Truncate(s + 8.5);
    assert 0 <= n <= 16;
    assert AsInt8(n) == n;
  }

  lemma CodeIsNibble(block: Block, i: nat)
    requires i < 32
    ensures Nibble(QuantiseQ4(block).packed, i) == Q4Codes(block)[i]
  {
    hide Q4Codes, Q4Scale, ArgMax;
    forall j | 0 <= j < BLOCK
      ensures Q4Bytes(block)[j] < 16 && Q4Bytes(block)[j] as int == Q4Codes(block)[j]
    {
      CodeBound(block, j);
      SmallByte(Q4Codes(block)[j]);
    }
    hide Q4Bytes;
    var j := if i < 16 then i else i - 16;
    PairParts(Q4Bytes(block)[j], Q4Bytes(block)[16 + j]);
  }

  lemma PairParts(lo: bv8, hi: bv8)
    requires lo < 16 && hi < 16
    ensures Pair(lo, hi) as int % 16 == lo as int && Pair(lo, hi) as int / 16 == hi as int
  {
    NibblesApart(lo, hi);
    LowIsRemainder(Pair(lo, hi));
  }

  lemma LowIsRemainder(b: bv8)
    ensures Low(b) as int == b as int % 16 && High(b) as int == b as int / 16
  {
    assert b & 0x0F == b % 16;
    assert b >> 4 == b / 16;
  }

  lemma UnpacksNibbles(packed: Packed, i: nat)
    requires i < 32
    ensures Unpack(packed)[i] as int == Nibble(packed, i)
  {
    hide Low, High;
    LowIsRemainder(packed[if i < 16 then i else i - 16]);
  }

  /** Reading back: each code times the scale, those of q4_0 taken 8 lower. */
  lemma ReadsBack(q8: Q8, q4: Q4, i: nat)
    requires i < 32 && |q8.codes| == 32
    ensures DequantiseQ8(q8)[i] == q8.d * q8.codes[i] as real
    ensures DequantiseQ4(q4)[i] == q4.d * (Nibble(q4.packed, i) as real - 8.0)
  {
    hide Nibble, Unpack;
    UnpacksNibbles(q4.packed, i);
  }
}
