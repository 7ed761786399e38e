/** The offset fixed point, placement, and what a written container gives back. */
module ContainerProperties {
  import opened Wrappers
  import opened Bytes
  import opened Container

  // Decimal widths

  lemma {:induction false} DecimalMonotone(a: nat, b: nat)
    requires a <= b
    ensures |Decimal(a)| <= |Decimal(b)|
    decreases b
  {
    if b >= 10 {
      DecimalMonotone(a / 10, b / 10);
    }
  }

  function Pow10(k: nat): nat {
    if k == 0 then 1 else 10 * Pow10(k - 1)
  }

  lemma {:induction false} DecimalWidth(n: nat, k: nat)
    requires k >= 1 && n < Pow10(k)
    ensures |Decimal(n)| <= k
    decreases k
  {
    if n >= 10 {
      assert Pow10(k) == 10 * Pow10(k - 1);
      DecimalWidth(n / 10, k - 1);
    }
  }

  /** Growing a number less than tenfold adds at most one digit. */
  lemma {:induction false} DecimalStep(n: nat, m: nat)
    requires n <= m <= 10 * n
    ensures |Decimal(m)| <= |Decimal(n)| + 1
  {
    if m >= 10 {
      DecimalMonotone(m / 10, n);
    }
  }

  // The fixed point

  function Base(t: Template): nat {
    PREAMBLE + |t.before| + |t.between| + |DIGEST_KEY| + DIGEST_DIGITS + |t.after|
  }

  lemma {:induction false} RenderedLength(t: Template, offset: nat)
    ensures PREAMBLE + |Render(t, offset, ZERO_DIGEST)| == Base(t) + |Decimal(offset)|
  {
  }

  function NextOffset(t: Template, offset: nat): nat {
    Align(Base(t) + |Decimal(offset)|)
  }

  lemma SettleStep(t: Template, offset: nat, passes: nat)
    requires passes > 0
    ensures Settle(t, offset, passes) ==
      if NextOffset(t, offset) == offset then Success((Render(t, offset, ZERO_DIGEST), offset))
      else Settle(t, NextOffset(t, offset), passes - 1)
  {
    RenderedLength(t, offset);
  }

  lemma AlignMonotone(a: nat, b: nat)
    requires a <= b
    ensures Align(a) <= Align(b)
  {
  }

  lemma NextMonotone(t: Template, a: nat, b: nat)
    requires a <= b
    ensures NextOffset(t, a) <= NextOffset(t, b)
  {
    DecimalMonotone(a, b);
    AlignMonotone(Base(t) + |Decimal(a)|, Base(t) + |Decimal(b)|);
  }

  /** The header, with a one-digit offset, fits the four-byte length that precedes it. */
  predicate HeaderFits(t: Template) {
    |Render(t, 0, ZERO_DIGEST)| < TWO_TO_THE_32
  }

  lemma FirstGuess(t: Template) returns (first: nat, second: nat)
    requires HeaderFits(t)
    ensures first == NextOffset(t, 0) >= ALIGNMENT
    ensures second == NextOffset(t, first)
    ensures second == first || second == first + ALIGNMENT
    ensures NextOffset(t, second) == second
    ensures |Decimal(second)| <= 11
  {
    hide Decimal, Align, Render;
    first := NextOffset(t, 0);
    second := NextOffset(t, first);
    RenderedLength(t, 0);
    OneDigit(0);
    ShortOffset(Base(t), 1);
    NextMonotone(t, 0, first);
    OneBlock(Base(t), |Decimal(first)|, |Decimal(first)|);
    ShortOffset(Base(t), |Decimal(first)|);
    DecimalStep(first, second);
    DecimalMonotone(first, second);
    OneBlock(Base(t), |Decimal(first)|, |Decimal(second)|);
  }

  lemma {:induction false} OneDigit(n: nat)
    requires n < 10
    ensures |Decimal(n)| == 1
  {
  }

  /** An offset under a terabyte has few digits. */
  lemma ShortOffset(base: nat, digits: nat)
    requires 81 <= base <= TWO_TO_THE_32 + 100 && 1 <= digits <= 12
    ensures 64 <= Align(base + digits) < 100_000_000_000
    ensures |Decimal(Align(base + digits))| <= 11
  {
    hide Decimal;
    assert Pow10(3) == 1_000;
    assert Pow10(6) == 1_000_000;
    assert Pow10(9) == 1_000_000_000;
    assert Pow10(11) == 100_000_000_000;
    DecimalWidth(Align(base + digits), 11);
  }

  /** A few more digits move the payload by one block at most, and a second time not at all. */
  lemma OneBlock(base: nat, digits: nat, more: nat)
    requires 1 <= digits <= 11 && digits <= more <= digits + 1
    ensures var first, second := Align(base + 1), Align(base + digits);
      (second == first || second == first + ALIGNMENT) && (more == digits || second != first ==> Align(base + more) == second)
  {
    hide Align;
    var first := Align(base + 1);
    if base + digits <= first {
      AlignIs(base + digits, first);
    } else {
      AlignIs(base + digits, first + ALIGNMENT);
      AlignIs(base + more, first + ALIGNMENT);
    }
  }

  lemma AlignIs(value: nat, block: nat)
    requires block % ALIGNMENT == 0 && value <= block < value + ALIGNMENT
    ensures Align(value) == block
  {
  }

  /**
   * The offset settles within three passes for every header that fits its length field, at the
   * least offset that describes its own header; the error of the fifth pass is unreachable.
   */
  lemma SettlesWithinThree(t: Template) returns (header: bytes, offset: nat)
    requires HeaderFits(t)
    ensures Settle(t, 0, 3) == Settle(t, 0, MAX_OFFSET_PASSES) == Success((header, offset))
    ensures header == Render(t, offset, ZERO_DIGEST)
    ensures offset == Align(PREAMBLE + |header|)
    ensures forall other: nat :: other == Align(PREAMBLE + |Render(t, other, ZERO_DIGEST)|) ==> offset <= other
  {
    hide Render, Align, Decimal, Settle;
    var first, second := FirstGuess(t);
    offset := second;
    header := Render(t, second, ZERO_DIGEST);
    SettleStep(t, 0, 3);
    SettleStep(t, first, 2);
    SettleStep(t, second, 1);
    SettleStep(t, 0, 5);
    SettleStep(t, first, 4);
    SettleStep(t, second, 3);
    RenderedLength(t, offset);
    forall other: nat | other == Align(PREAMBLE + |Render(t, other, ZERO_DIGEST)|)
      ensures offset <= other
    {
      RenderedLength(t, other);
      NextMonotone(t, 0, other);
      NextMonotone(t, first, other);
    }
  }

  /** Two passes are not enough for any header that fills its last block with a one-digit offset. */
  lemma {:induction false} TwoPassesAreNotEnough(t: Template)
    requires HeaderFits(t) && (PREAMBLE + |Render(t, 0, ZERO_DIGEST)|) % ALIGNMENT == 0
    ensures Settle(t, 0, 2) == Failure(NotConverged)
  {
    hide Render, Settle;
    RenderedLength(t, 0);
    var first, second := FirstGuess(t);
    DecimalStep(1, 10);
    DecimalMonotone(10, first);
    assert |Decimal(10)| == 2;
    SettleStep(t, 0, 2);
    SettleStep(t, first, 1);
    assert second != first;
    assert Settle(t, second, 0) == Failure(NotConverged) by { SettleNever(t, second); }
  }

  lemma {:induction false} SettleNever(t: Template, offset: nat)
    ensures Settle(t, offset, 0) == Failure(NotConverged)
  {
  }
}
