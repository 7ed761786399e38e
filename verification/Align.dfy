/** Aligning two tokenizations of one text by bytes: `kv_rosetta/mappers/align.py`. Weights are exact reals. */
module Align {
  import opened Wrappers
  import opened Bytes

  datatype Span = Span(index: nat, start: nat, end: nat)

  datatype AlignError = NothingToAlign | EmptyPiece(index: nat) | DifferentBytes(source: nat, target: nat)

  /** `text_of`: what the pieces decode to together. */
  function TextOf(pieces: seq<bytes>): bytes {
    if pieces == [] then [] else TextOf(pieces[..|pieces| - 1]) + pieces[|pieces| - 1]
  }

  /** Where the i-th piece begins in the text. */
  function Offset(pieces: seq<bytes>, i: nat): nat
    requires i <= |pieces|
  {
    if i == 0 then 0 else Offset(pieces, i - 1) + |pieces[i - 1]|
  }

  predicate NoEmptyPiece(pieces: seq<bytes>) {
    forall i :: 0 <= i < |pieces| ==> pieces[i] != []
  }

  predicate Alignable(pieces: seq<bytes>) {
    pieces != [] && NoEmptyPiece(pieces)
  }

  /** Spans in order, tiling the text without gap or overlap. */
  predicate SpansOf(spans: seq<Span>, pieces: seq<bytes>) {
    && |spans| == |pieces|
    && forall i :: 0 <= i < |spans| ==> spans[i] == Span(i, Offset(pieces, i), Offset(pieces, i + 1))
  }

  /** `byte_spans` */
  method ByteSpans(pieces: seq<bytes>) returns (r: Result<seq<Span>, AlignError>)
    ensures r.Success? <==> pieces != [] && forall i :: 0 <= i < |pieces| ==> pieces[i] != []
    ensures r.Success? <==> Alignable(pieces)
    ensures r.Success? ==> |r.value| == |pieces| && forall i :: 0 <= i < |pieces| ==>
      r.value[i] == Span(i, Offset(pieces, i), Offset(pieces, i + 1))
    ensures r.Success? ==> SpansOf(r.value, pieces)
    ensures r == Failure(NothingToAlign) <==> pieces == []
    ensures r.Failure? && pieces != [] ==> exists i ::
      0 <= i < |pieces| && r.error == EmptyPiece(i) && pieces[i] == [] && NoEmptyPiece(pieces[..i])
  {
    if pieces == [] {
      return Failure(NothingToAlign);
    }
    var spans: seq<Span> := [];
    var offset: nat := 0;
    for index := 0 to |pieces|
      invariant |spans| == index && offset == Offset(pieces, index)
      invariant forall i :: 0 <= i < index ==> pieces[i] != [] && spans[i] == Span(i, Offset(pieces, i), Offset(pieces, i + 1))
    {
      if pieces[index] == [] {
        return Failure(EmptyPiece(index));
      }
      spans := spans + [Span(index, offset, offset + |pieces[index]|)];
      offset := offset + |pieces[index]|;
    }
    return Success(spans);
  }

  /** Bytes target token r shares with source token c. */
  function Overlap(source: seq<bytes>, target: seq<bytes>, r: nat, c: nat): nat
    requires r < |target| && c < |source|
  {
    Max(0, Min(Offset(target, r + 1), Offset(source, c + 1)) - Max(Offset(target, r), Offset(source, c)))
  }

  function RowSum(source: seq<bytes>, target: seq<bytes>, r: nat, n: nat): nat
    requires r < |target| && n <= |source|
  {
    if n == 0 then 0 else RowSum(source, target, r, n - 1) + Overlap(source, target, r, n - 1)
  }

  function ColumnSum(source: seq<bytes>, target: seq<bytes>, c: nat, n: nat): nat
    requires c < |source| && n <= |target|
  {
    if n == 0 then 0 else ColumnSum(source, target, c, n - 1) + Overlap(source, target, n - 1, c)
  }

  /** The weight of source token c in target token r. */
  function Weight(source: seq<bytes>, target: seq<bytes>, r: nat, c: nat): real
    requires r < |target| && c < |source| && target[r] != []
  {
    Overlap(source, target, r, c) as real / |target[r]| as real
  }

  /** `align` */
  method AlignTokens(source: seq<bytes>, target: seq<bytes>) returns (r: Result<array2<real>, AlignError>)
    ensures r.Success? <==>
      && TextOf(source) == TextOf(target) && source != [] && target != []
      && (forall i :: 0 <= i < |source| ==> source[i] != []) && forall i :: 0 <= i < |target| ==> target[i] != []
    ensures TextOf(source) != TextOf(target) ==> r == Failure(DifferentBytes(|TextOf(source)|, |TextOf(target)|))
    ensures r.Success? ==> fresh(r.value) && r.value.Length0 == |target| && r.value.Length1 == |source|
    ensures r.Success? ==> forall i, j :: 0 <= i < |target| && 0 <= j < |source| ==> r.value[i, j] == Weight(source, target, i, j)
  {
    hide Weight;
    if TextOf(source) != TextOf(target) {
      return Failure(DifferentBytes(|TextOf(source)|, |TextOf(target)|));
    }
    var sourceSpans := ByteSpans(source);
    if sourceSpans.Failure? {
      return Failure(sourceSpans.error);
    }
    var targetSpans := ByteSpans(target);
    if targetSpans.Failure? {
      return Failure(targetSpans.error);
    }
    var weights := new real[|target|, |source|];
    for row := 0 to |target|
      invariant forall i, j :: 0 <= i < row && 0 <= j < |source| ==> weights[i, j] == Weight(source, target, i, j)
    {
      FillRow(weights, source, target, sourceSpans.value, targetSpans.value, row);
    }
    return Success(weights);
  }

  /** One round of the loop in `align`: overlaps first, then the division by their sum. */
  method FillRow(weights: array2<real>, source: seq<bytes>, target: seq<bytes>, sourceSpans: seq<Span>, targetSpans: seq<Span>, row: nat)
    requires weights.Length0 == |target| && weights.Length1 == |source| && row < |target|
    requires TextOf(source) == TextOf(target) && Alignable(source) && Alignable(target)
    requires SpansOf(sourceSpans, source) && SpansOf(targetSpans, target)
    modifies weights
    ensures forall j :: 0 <= j < |source| ==> weights[row, j] == Weight(source, target, row, j)
    ensures forall i, j :: 0 <= i < |target| && i != row && 0 <= j < |source| ==> weights[i, j] == old(weights[i, j])
  {
    hide Offset;
    var span := targetSpans[row];
    var sum := 0.0;
    for column := 0 to |source|
      invariant forall j :: 0 <= j < column ==> weights[row, j] == Overlap(source, target, row, j) as real
      invariant sum == RowSum(source, target, row, column) as real
      invariant forall i, j :: 0 <= i < |target| && i != row && 0 <= j < |source| ==> weights[i, j] == old(weights[i, j])
    {
      var other := sourceSpans[column];
      var overlap := Min(span.end, other.end) - Max(span.start, other.start);
      weights[row, column] := if overlap > 0 then overlap as real else 0.0;
      sum := sum + weights[row, column];
    }
    RowSumsToLength(source, target, row);
    for column := 0 to |source|
      invariant forall j :: 0 <= j < column ==> weights[row, j] == Weight(source, target, row, j)
      invariant forall j :: column <= j < |source| ==> weights[row, j] == Overlap(source, target, row, j) as real
      invariant forall i, j :: 0 <= i < |target| && i != row && 0 <= j < |source| ==> weights[i, j] == old(weights[i, j])
    {
      weights[row, column] := weights[row, column] / sum;
    }
  }

  // Conservation

  lemma {:induction false} OffsetIsLength(pieces: seq<bytes>, i: nat)
    requires i <= |pieces|
    ensures Offset(pieces, i) == |TextOf(pieces[..i])|
  {
    if i > 0 {
      OffsetIsLength(pieces, i - 1);
      assert pieces[..i][..i - 1] == pieces[..i - 1];
    } else {
      assert pieces[..0] == [];
    }
  }

  lemma {:induction false} OffsetMonotone(pieces: seq<bytes>, i: nat, j: nat)
    requires i <= j <= |pieces|
    ensures Offset(pieces, i) <= Offset(pieces, j)
    ensures i < j && NoEmptyPiece(pieces) ==> Offset(pieces, i) < Offset(pieces, j)
  {
    if i < j {
      OffsetMonotone(pieces, i, j - 1);
    }
  }

  /** Both tokenizations end where the text ends. */
  lemma {:induction false} SameEnd(source: seq<bytes>, target: seq<bytes>)
    requires TextOf(source) == TextOf(target)
    ensures Offset(source, |source|) == Offset(target, |target|)
  {
    OffsetIsLength(source, |source|);
    OffsetIsLength(target, |target|);
    assert source[..|source|] == source && target[..|target|] == target;
  }

  /** The first n source tokens cover a target token as far as they reach. */
  lemma {:induction false} PartialRow(source: seq<bytes>, target: seq<bytes>, r: nat, n: nat)
    requires r < |target| && n <= |source|
    ensures RowSum(source, target, r, n) == Max(0, Min(Offset(target, r + 1), Offset(source, n)) - Offset(target, r))
  {
    OffsetMonotone(target, r, r + 1);
    if n > 0 {
      PartialRow(source, target, r, n - 1);
      OffsetMonotone(source, n - 1, n);
    }
  }

  /** Each row of overlaps sums to the length of its target token. */
  lemma {:induction false} RowSumsToLength(source: seq<bytes>, target: seq<bytes>, r: nat)
    requires TextOf(source) == TextOf(target) && r < |target|
    ensures RowSum(source, target, r, |source|) == |target[r]|
  {
    PartialRow(source, target, r, |source|);
    SameEnd(source, target);
    OffsetMonotone(target, r + 1, |target|);
  }

  lemma {:induction false} ColumnsAreRows(source: seq<bytes>, target: seq<bytes>, c: nat, n: nat)
    requires c < |source| && n <= |target|
    ensures ColumnSum(source, target, c, n) == RowSum(target, source, c, n)
  {
    if n > 0 {
      ColumnsAreRows(source, target, c, n - 1);
    }
  }

  /** Each column of overlaps sums to the length of its source token: no byte is counted twice or lost. */
  lemma {:induction false} ColumnSumsToLength(source: seq<bytes>, target: seq<bytes>, c: nat)
    requires TextOf(source) == TextOf(target) && c < |source|
    ensures ColumnSum(source, target, c, |target|) == |source[c]|
  {
    ColumnsAreRows(source, target, c, |target|);
    RowSumsToLength(target, source, c);
  }

  function WeightSum(source: seq<bytes>, target: seq<bytes>, r: nat, n: nat): real
    requires r < |target| && n <= |source| && target[r] != []
  {
    if n == 0 then 0.0 else WeightSum(source, target, r, n - 1) + Weight(source, target, r, n - 1)
  }

  lemma {:induction false} WeightSumIsRatio(source: seq<bytes>, target: seq<bytes>, r: nat, n: nat)
    requires r < |target| && n <= |source| && target[r] != []
    ensures WeightSum(source, target, r, n) == RowSum(source, target, r, n) as real / |target[r]| as real
  {
    hide Overlap;
    if n > 0 {
      WeightSumIsRatio(source, target, r, n - 1);
      SumOfRatios(RowSum(source, target, r, n - 1) as real, Overlap(source, target, r, n - 1) as real, |target[r]| as real);
    }
  }

  lemma SumOfRatios(a: real, b: real, d: real)
    requires d > 0.0
    ensures a / d + b / d == (a + b) / d
  {
  }

  /** The weights of a target token sum to one, so pooling is a weighted mean. */
  lemma {:induction false} WeightsSumToOne(source: seq<bytes>, target: seq<bytes>, r: nat)
    requires TextOf(source) == TextOf(target) && Alignable(target) && r < |target|
    ensures WeightSum(source, target, r, |source|) == 1.0
  {
    WeightSumIsRatio(source, target, r, |source|);
    RowSumsToLength(source, target, r);
    OverItself(|target[r]| as real);
  }

  lemma OverItself(d: real)
    requires d > 0.0
    ensures d / d == 1.0 && 0.0 / d == 0.0
  {
  }

  // The staircase

  /** Later target tokens never overlap earlier source tokens. */
  lemma {:induction false} Staircase(source: seq<bytes>, target: seq<bytes>, r: nat, c: nat, r': nat, c': nat)
    requires r < r' < |target| && c < |source| && c' < |source|
    requires Overlap(source, target, r, c) > 0 && Overlap(source, target, r', c') > 0
    ensures c <= c'
  {
    if c' < c {
      OffsetMonotone(source, c' + 1, c);
      OffsetMonotone(target, r + 1, r');
      assert false;
    }
  }

  function Nonzeros(source: seq<bytes>, target: seq<bytes>): set<(int, int)> {
    set r, c | 0 <= r < |target| && 0 <= c < |source| && Overlap(source, target, r, c) > 0 :: (r, c)
  }

  lemma {:induction false} FewDistinctSums(pairs: set<(int, int)>, n: nat)
    requires forall p :: p in pairs ==> 0 <= p.0 + p.1 < n
    requires forall p, q :: p in pairs && q in pairs && p.0 + p.1 == q.0 + q.1 ==> p == q
    ensures |pairs| <= n
  {
    if n == 0 {
      assert forall p :: p !in pairs;
      assert pairs == {};
    } else if p :| p in pairs && p.0 + p.1 == n - 1 {
      FewDistinctSums(pairs - {p}, n - 1);
    } else {
      FewDistinctSums(pairs, n - 1);
    }
  }

  /** At most S + T - 1 source and target tokens overlap. */
  lemma {:induction false} FewOverlaps(source: seq<bytes>, target: seq<bytes>)
    requires source != [] && target != []
    ensures |Nonzeros(source, target)| <= |source| + |target| - 1
  {
    var pairs := Nonzeros(source, target);
    forall p, q | p in pairs && q in pairs && p.0 + p.1 == q.0 + q.1
      ensures p == q
    {
      if p.0 < q.0 {
        Staircase(source, target, p.0, p.1, q.0, q.1);
      } else if q.0 < p.0 {
        Staircase(source, target, q.0, q.1, p.0, p.1);
      }
    }
    FewDistinctSums(pairs, |source| + |target| - 1);
  }

  /** Equal tokenizations align token by token. */
  lemma {:induction false} SameTokensAlignAsIdentity(pieces: seq<bytes>, r: nat, c: nat)
    requires Alignable(pieces) && r < |pieces| && c < |pieces|
    ensures Weight(pieces, pieces, r, c) == if r == c then 1.0 else 0.0
  {
    OverItself(|pieces[r]| as real);
    if r < c {
      OffsetMonotone(pieces, r + 1, c);
    } else if c < r {
      OffsetMonotone(pieces, c + 1, r);
    }
  }
}
