/** Which rows a token reads, said bit by bit and digit by digit instead of step by step. */
module PleHash {
  import opened Wrappers
  import opened Bytes
  import opened PlePrefetch

  // The context

  /** The j-th predecessor and every younger one is there, a token, and not the end of a sequence. */
  predicate Reaches(prev: seq<int>, j: nat, eos: int) {
    j <= |prev| && forall i :: |prev| - j <= i < |prev| ==> prev[i] >= 0 && prev[i] != eos
  }

  /** What stands for the j-th predecessor: itself as far back as the sequence reaches, and the end token beyond. */
  function Seen(tok: int, prev: seq<int>, j: nat, eos: int): int {
    if j == 0 then tok else if Reaches(prev, j, eos) then prev[|prev| - j] else eos
  }

  lemma {:induction false} CutExactly(prev: seq<int>, s: nat, eos: int)
    ensures Cut(prev, s, eos) <==> !Reaches(prev, s, eos)
  {
    if s > 0 {
      CutExactly(prev, s - 1, eos);
    }
  }

  lemma ContextExactly(tok: int, prev: seq<int>, size: nat, eos: int)
    ensures forall j :: 0 <= j < size ==> Context(tok, prev, size, eos)[j] == Seen(tok, prev, j, eos)
  {
    forall j | 0 <= j < size
      ensures Context(tok, prev, size, eos)[j] == Seen(tok, prev, j, eos)
    {
      CutExactly(prev, j, eos);
    }
  }

  // The hash

  /** The i-th binary digit. */
  function Bit(x: nat, i: nat): nat {
    if i == 0 then x % 2 else Bit(x / 2, i - 1)
  }

  lemma {:induction false} BitsDetermine(x: nat, y: nat, width: nat)
    requires x < Pow2(width) && y < Pow2(width)
    requires forall i :: 0 <= i < width ==> Bit(x, i) == Bit(y, i)
    ensures x == y
  {
    if width > 0 {
      assert Bit(x, 0) == Bit(y, 0);
      forall i | 0 <= i < width - 1
        ensures Bit(x / 2, i) == Bit(y / 2, i)
      {
        assert Bit(x, i + 1) == Bit(y, i + 1);
      }
      BitsDetermine(x / 2, y / 2, width - 1);
    }
  }

  lemma {:induction false} XorBits(a: nat, b: nat, width: nat, i: nat)
    requires i < width
    ensures Bit(XorLow(a, b, width), i) == (Bit(a, i) + Bit(b, i)) % 2
  {
    hide XorLow;
    XorParts(a, b, width);
    if i > 0 {
      XorBits(a / 2, b / 2, width - 1, i - 1);
    }
  }

  lemma XorParts(a: nat, b: nat, width: nat)
    requires width > 0
    ensures XorLow(a, b, width) % 2 == (a % 2 + b % 2) % 2
    ensures XorLow(a, b, width) / 2 == XorLow(a / 2, b / 2, width - 1)
  {
    var digit, rest := (a % 2 + b % 2) % 2, XorLow(a / 2, b / 2, width - 1);
    assert XorLow(a, b, width) == digit + 2 * rest;
  }

  /** The product of the j-th entry with its multiplier, modulo 2^64. */
  function Term(tok: int, prev: seq<int>, c: Constants, j: nat): nat
    requires c.Valid() && j < c.ngram
  {
    Seen(tok, prev, j, c.eos) * c.multipliers[j] % 0x1_0000_0000_0000_0000
  }

  /** The entries among the first n whose products have this bit. */
  ghost function WithBit(tok: int, prev: seq<int>, c: Constants, n: nat, i: nat): set<nat>
    requires c.Valid() && n <= c.ngram
  {
    set j: nat | j < n && Bit(Term(tok, prev, c, j), i) == 1
  }

  /** Each bit is set when an odd number of the products have it. */
  ghost predicate IsHash(x: int, tok: int, prev: seq<int>, c: Constants, n: nat)
    requires c.Valid() && n <= c.ngram
  {
    0 <= x < TWO_TO_THE_64 && forall i :: 0 <= i < 64 ==> Bit(x, i) == |WithBit(tok, prev, c, n, i)| % 2
  }

  lemma {:induction false} BitIsDigit(x: nat, i: nat)
    ensures Bit(x, i) == 0 || Bit(x, i) == 1
  {
    if i > 0 {
      BitIsDigit(x / 2, i - 1);
    }
  }

  lemma {:induction false} MixedBits(tok: int, prev: seq<int>, c: Constants, n: nat, i: nat)
    requires c.Valid() && 1 <= n <= c.ngram && i < 64
    ensures Bit(Mixed(Context(tok, prev, c.ngram, c.eos), n, c.multipliers), i) == |WithBit(tok, prev, c, n, i)| % 2
  {
    hide Context, Term, Product64, Mixed, XorLow, Bit, WithBit;
    var ctx := Context(tok, prev, c.ngram, c.eos);
    var last := Term(tok, prev, c, n - 1);
    TermIs(tok, prev, c, n - 1);
    BitIsDigit(last, i);
    OneMoreTerm(tok, prev, c, n, i);
    MixedStep(ctx, n, c.multipliers);
    if n > 1 {
      MixedBits(tok, prev, c, n - 1, i);
      XorBits(Mixed(ctx, n - 1, c.multipliers), last, 64, i);
    } else {
      NoTerms(tok, prev, c, i);
    }
  }

  lemma TermIs(tok: int, prev: seq<int>, c: Constants, j: nat)
    requires c.Valid() && j < c.ngram
    ensures Product64(Context(tok, prev, c.ngram, c.eos)[j], c.multipliers[j]) == Term(tok, prev, c, j)
  {
    hide Context, Seen;
    ContextExactly(tok, prev, c.ngram, c.eos);
  }

  lemma MixedStep(ctx: seq<int>, n: nat, multipliers: seq<int>)
    requires 1 <= n <= |ctx| && n <= |multipliers|
    ensures var last := Product64(ctx[n - 1], multipliers[n - 1]);
      Mixed(ctx, n, multipliers) == if n == 1 then last else XorLow(Mixed(ctx, n - 1, multipliers), last, 64)
  {
  }

  lemma NoTerms(tok: int, prev: seq<int>, c: Constants, i: nat)
    requires c.Valid()
    ensures |WithBit(tok, prev, c, 0, i)| == 0
  {
    assert WithBit(tok, prev, c, 0, i) == {};
  }

  lemma OneMoreTerm(tok: int, prev: seq<int>, c: Constants, n: nat, i: nat)
    requires c.Valid() && 1 <= n <= c.ngram
    ensures |WithBit(tok, prev, c, n, i)|
         == |WithBit(tok, prev, c, n - 1, i)| + if Bit(Term(tok, prev, c, n - 1), i) == 1 then 1 else 0
  {
    hide Term, Bit;
    var before, now := WithBit(tok, prev, c, n - 1, i), WithBit(tok, prev, c, n, i);
    if Bit(Term(tok, prev, c, n - 1), i) == 1 {
      assert now == before + {n - 1};
    } else {
      assert now == before;
    }
  }

  /** The hash of the first n entries is the one number below 2^64 whose bits are the parities of the products'. */
  lemma HashExactly(tok: int, prev: seq<int>, c: Constants, n: nat, x: int)
    requires c.Valid() && 1 <= n <= c.ngram
    ensures x == Mixed(Context(tok, prev, c.ngram, c.eos), n, c.multipliers) <==> IsHash(x, tok, prev, c, n)
  {
    hide Mixed, Context, WithBit;
    var hash := Mixed(Context(tok, prev, c.ngram, c.eos), n, c.multipliers);
    forall i | 0 <= i < 64
      ensures Bit(hash, i) == |WithBit(tok, prev, c, n, i)| % 2
    {
      MixedBits(tok, prev, c, n, i);
    }
    if IsHash(x, tok, prev, c, n) {
      SixtyFourBits();
      BitsDetermine(x, hash, 64);
    }
  }

  // The rows

  ghost predicate Divides(m: int, x: int) {
    exists q :: IsMultiple(x, q, m)
  }

  predicate IsMultiple(x: int, q: int, m: int) {
    x == q * m
  }

  /** The row is as far behind its head's offset as the hash is behind a multiple of the head's size, on the size's side of zero. */
  ghost predicate IsRow(row: int, hash: int, offset: int, vocab: int) {
    && (if vocab > 0 then 0 <= row - offset < vocab else vocab < row - offset <= 0)
    && Divides(vocab, hash - (row - offset))
  }

  lemma RemainderIsRow(hash: int, offset: int, vocab: int)
    requires vocab != 0
    ensures IsRow(PyMod(hash, vocab) + offset, hash, offset, vocab)
  {
    var behind := PyMod(hash, vocab);
    if vocab > 0 {
      assert IsMultiple(hash - behind, hash / vocab, vocab);
    } else {
      var p := (-hash) / (-vocab);
      assert -hash == (-vocab) * p + (-hash) % (-vocab);
      assert (-vocab) * p == -(p * vocab);
      assert IsMultiple(hash - behind, p, vocab);
    }
  }

  /** Row g of the n-gram size n, among the rows of a token. */
  function RowIndex(c: Constants, n: nat, g: nat): nat
    requires c.Valid() && 2 <= n <= c.ngram && g < c.headsPerNgram
    ensures RowIndex(c, n, g) < c.Heads()
  {
    TimesMonotone(n - 1, c.ngram - 1, c.headsPerNgram);
    Times(n - 2, c.headsPerNgram) + g
  }

  lemma RowIndexIs(c: Constants, n: nat, g: nat)
    requires c.Valid() && 2 <= n <= c.ngram && g < c.headsPerNgram
    ensures RowIndex(c, n, g) == (n - 2) * c.headsPerNgram + g
  {
    TimesIsProduct(n - 2, c.headsPerNgram);
  }

  /**
   * The rows of a token: for every n-gram size and head, the hash of the token and its n - 1 predecessors, reduced to
   * the head's part of the table.
   */
  lemma TokenRowsExactly(tok: int, prev: seq<int>, c: Constants, n: nat, g: nat)
    requires c.Valid() && c.Divides() && 2 <= n <= c.ngram && g < c.headsPerNgram
    ensures
      var h := RowIndex(c, n, g);
      && h == (n - 2) * c.headsPerNgram + g
      && exists hash :: IsHash(hash, tok, prev, c, n) && IsRow(TokenRows(tok, prev, c)[h], hash, c.offsets[h], c.vocabs[h])
  {
    hide Mixed, Context, IsRow, IsHash;
    var ctx := Context(tok, prev, c.ngram, c.eos);
    var hash := Mixed(ctx, n, c.multipliers);
    HashExactly(tok, prev, c, n, hash);
    var h := RowIndex(c, n, g);
    RowIndexIs(c, n, g);
    RowsAt(ctx, c, c.ngram - 1, n, g);
    RemainderIsRow(hash, c.offsets[h], c.vocabs[h]);
  }

  lemma {:induction false} RowsAt(ctx: seq<int>, c: Constants, groups: nat, n: nat, g: nat)
    requires c.Valid() && c.Divides() && |ctx| == c.ngram && n - 1 <= groups <= c.ngram - 1
    requires 2 <= n && g < c.headsPerNgram
    ensures RowIndex(c, n, g) < Times(groups, c.headsPerNgram)
    ensures var h := RowIndex(c, n, g);
      RowsOfContext(ctx, c, groups)[h] == PyMod(Mixed(ctx, n, c.multipliers), c.vocabs[h]) + c.offsets[h]
    decreases groups
  {
    hide Mixed, PyMod, Constants.Divides;
    TimesMonotone(n - 1, groups, c.headsPerNgram);
    TimesMonotone(groups, c.ngram - 1, c.headsPerNgram);
    if n - 1 < groups {
      RowsAt(ctx, c, groups - 1, n, g);
    }
  }

  /** The rows of a sequence are those of its tokens, each behind all its predecessors. */
  lemma {:induction false} SequenceRowsExactly(tokens: seq<int>, c: Constants, i: nat, h: nat)
    requires c.Valid() && c.Divides() && i < |tokens| && h < c.Heads()
    ensures |SequenceRows(tokens, c)| == |tokens| * c.Heads()
    ensures 0 <= i * c.Heads() + h < |tokens| * c.Heads()
    ensures SequenceRows(tokens, c)[i * c.Heads() + h] == TokenRows(tokens[i], tokens[..i], c)[h]
  {
    hide TokenRows;
    SequenceLength(tokens, c);
    var front, last := tokens[..|tokens| - 1], |tokens| - 1;
    SequenceLength(front, c);
    Inside(i, |tokens|, c.Heads(), h);
    if i < last {
      SequenceRowsExactly(front, c, i, h);
      assert front[..i] == tokens[..i];
    } else {
      assert front == tokens[..i];
    }
  }

  lemma Inside(i: nat, count: nat, width: nat, h: nat)
    requires i < count && h < width
    ensures 0 <= i * width + h < count * width
    ensures count * width == (count - 1) * width + width
    ensures i < count - 1 ==> i * width + h < (count - 1) * width
  {
    assert (i + 1) * width == i * width + width;
    Grows(i + 1, count, width);
    if i < count - 1 {
      Grows(i + 1, count - 1, width);
    }
  }

  lemma Grows(a: nat, b: nat, width: nat)
    requires a <= b
    ensures a * width <= b * width
  {
  }

  lemma {:induction false} SequenceLength(tokens: seq<int>, c: Constants)
    requires c.Valid() && c.Divides()
    ensures |SequenceRows(tokens, c)| == |tokens| * c.Heads()
  {
    hide TokenRows;
    if tokens != [] {
      SequenceLength(tokens[..|tokens| - 1], c);
      assert |tokens| * c.Heads() == (|tokens| - 1) * c.Heads() + c.Heads();
    }
  }
}
