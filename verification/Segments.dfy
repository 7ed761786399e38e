/** The segment table of a KVX payload: `kv_rosetta/segments.py`. */
module Segments {
  import opened Wrappers
  import opened Sorting
  import opened Bytes

  /** One described region of the payload; `sha256` is empty when none was recorded. */
  datatype Segment = Segment(
    name: string,
    role: string,
    layerStart: int,
    layerEnd: int,
    dtype: string,
    shape: seq<int>,
    layout: string,
    offset: int,
    nbytes: int,
    sha256: bytes,
    byteOrder: string)
  {
    function End(): int { offset + nbytes }

    /** Byte p of the payload belongs to this segment. */
    predicate Claims(p: int) { offset <= p < End() }
  }

  datatype Problem =
    | BlankName | UnknownRole | NotLittleEndian | NegativeField | LayersBackwards
    | EmptyShape | NegativeDimension | BlankLayout | SizeMismatch | UnknownDtype
    | DuplicateName | BeforePayload | Misaligned | PastEndOfFile

  /** The answer of `validate`; `index` is the row of the table that was refused. */
  datatype Verdict =
    | Accepted
    | EmptyTable
    | Refused(index: nat, why: Problem)
    | Overlap(first: Segment, second: Segment)

  const ROLES: set<string> :=
    {"k", "v", "kv", "scales", "compressed", "recurrent", "conv", "cross", "aux"}
  const OPAQUE_ONLY: set<string> := {"fp8_e4m3", "q8_0", "q4_0"}

  /** `str.isspace` for one character. */
  predicate IsSpace(c: char) {
    c in "\t\n\U{0B}\U{0C}\r\U{1C}\U{1D}\U{1E}\U{1F} \U{85}\U{A0}\U{1680}\U{2028}\U{2029}\U{202F}\U{205F}\U{3000}"
    || '\U{2000}' <= c <= '\U{200A}'
  }

  /** `not s.strip()` */
  predicate IsBlank(s: string) {
    forall i :: 0 <= i < |s| ==> IsSpace(s[i])
  }

  predicate IsCanonical(dtype: string) {
    dtype in {"f32", "f16", "bf16"}
  }

  function ItemSize(dtype: string): int
    requires IsCanonical(dtype)
  {
    if dtype == "f32" then 4 else 2
  }

  function Product(shape: seq<int>): int {
    if shape == [] then 1 else shape[0] * Product(shape[1..])
  }

  /** `_check_one`: what a row can be refused for on its own. */
  function CheckOne(seg: Segment): Option<Problem> {
    if IsBlank(seg.name) then Some(BlankName)
    else if seg.role !in ROLES then Some(UnknownRole)
    else if seg.byteOrder != "little" then Some(NotLittleEndian)
    else if seg.layerStart < 0 || seg.layerEnd < 0 || seg.offset < 0 || seg.nbytes < 0 then Some(NegativeField)
    else if seg.layerEnd < seg.layerStart then Some(LayersBackwards)
    else if seg.shape == [] then Some(EmptyShape)
    else if exists i :: 0 <= i < |seg.shape| && seg.shape[i] < 0 then Some(NegativeDimension)
    else if IsBlank(seg.layout) then Some(BlankLayout)
    else if IsCanonical(seg.dtype) then
      if seg.nbytes != ItemSize(seg.dtype) * Product(seg.shape) then Some(SizeMismatch) else None
    else if seg.dtype !in OPAQUE_ONLY then Some(UnknownDtype)
    else None
  }

  /** Where the payload lies and how its segments must be aligned; alignment 0 asks for none. */
  datatype Frame = Frame(payloadStart: int, fileSize: int, alignment: int)

  function CheckPlace(seg: Segment, frame: Frame): Option<Problem> {
    if seg.offset < frame.payloadStart then Some(BeforePayload)
    else if frame.alignment != 0 && seg.offset % frame.alignment != 0 then Some(Misaligned)
    else if seg.End() > frame.fileSize then Some(PastEndOfFile)
    else None
  }

  function CheckRow(seg: Segment, seen: set<string>, frame: Frame): Option<Problem> {
    if CheckOne(seg).Some? then CheckOne(seg)
    else if seg.name in seen then Some(DuplicateName)
    else CheckPlace(seg, frame)
  }

  predicate RowSound(segments: seq<Segment>, i: nat, frame: Frame)
    requires i < |segments|
  {
    && CheckOne(segments[i]) == None
    && CheckPlace(segments[i], frame) == None
    && forall j :: 0 <= j < i ==> segments[j].name != segments[i].name
  }

  predicate RowsSound(segments: seq<Segment>, frame: Frame) {
    forall i :: 0 <= i < |segments| ==> RowSound(segments, i, frame)
  }

  predicate ByOffset(a: Segment, b: Segment) {
    a.offset <= b.offset
  }

  lemma ByOffsetIsTotal()
    ensures TotalPreorder(ByOffset)
  {
  }

  predicate NeighboursApart(ordered: seq<Segment>) {
    forall i {:trigger ordered[i]} :: 0 <= i < |ordered| - 1 ==> ordered[i].End() <= ordered[i + 1].offset
  }

  function Names(segments: seq<Segment>): set<string> {
    set i | 0 <= i < |segments| :: segments[i].name
  }

  predicate Acceptable(segments: seq<Segment>, frame: Frame) {
    segments != [] && RowsSound(segments, frame) && NeighboursApart(Sorted(segments, ByOffset))
  }

  /** `validate`: rows in table order, then neighbours in offset order. */
  method Validate(segments: seq<Segment>, frame: Frame) returns (v: Verdict)
    ensures v.EmptyTable? <==> segments == []
    ensures v.Refused? <==> !RowsSound(segments, frame)
    ensures v.Refused? ==> FirstBadRow(segments, frame, v.index, v.why)
    ensures v.Accepted? <==> Acceptable(segments, frame)
    ensures v.Overlap? ==> OverlapWitness(segments, v.first, v.second)
  {
    hide RowSound, FirstBadRow;
    if segments == [] {
      return EmptyTable;
    }
    v := CheckRows(segments, frame);
    if !v.Refused? {
      v := CheckNeighbours(segments);
    }
  }

  predicate FirstBadRow(segments: seq<Segment>, frame: Frame, index: nat, why: Problem) {
    && index < |segments|
    && (forall i :: 0 <= i < index ==> RowSound(segments, i, frame))
    && CheckRow(segments[index], Names(segments[..index]), frame) == Some(why)
  }

  /** The loop of `validate` that grows the set of names seen. */
  method CheckRows(segments: seq<Segment>, frame: Frame) returns (v: Verdict)
    ensures v.Refused? || v.Accepted?
    ensures v.Refused? <==> !RowsSound(segments, frame)
    ensures v.Refused? ==> FirstBadRow(segments, frame, v.index, v.why)
  {
    hide CheckOne, CheckPlace;
    var seen: set<string> := {};
    var index: nat := 0;
    while index < |segments|
      invariant index <= |segments|
      invariant seen == Names(segments[..index])
      invariant forall i :: 0 <= i < index ==> RowSound(segments, i, frame)
    {
      SeenNames(segments, index);
      var problem := CheckRow(segments[index], seen, frame);
      if problem.Some? {
        assert !RowSound(segments, index, frame);
        return Refused(index, problem.value);
      }
      NamesGrow(segments, index);
      seen := seen + {segments[index].name};
      assert RowSound(segments, index, frame);
      index := index + 1;
    }
    return Accepted;
  }

  /** The loop of `validate` over `zip(ordered, ordered[1:])`. */
  method CheckNeighbours(segments: seq<Segment>) returns (v: Verdict)
    ensures v.Accepted? || v.Overlap?
    ensures v.Accepted? <==> NeighboursApart(Sorted(segments, ByOffset))
    ensures v.Overlap? ==> OverlapWitness(segments, v.first, v.second)
  {
    hide Sorted, OverlapWitness;
    var ordered := Sorted(segments, ByOffset);
    var index := 1;
    while index < |ordered|
      invariant 1 <= index
      invariant index <= |ordered| || |ordered| == 0
      invariant forall i {:trigger ordered[i]} :: 0 <= i < index - 1 && i + 1 < |ordered| ==> ordered[i].End() <= ordered[i + 1].offset
    {
      if ordered[index].offset < ordered[index - 1].End() {
        NeighboursOverlap(segments, index);
        return Overlap(ordered[index - 1], ordered[index]);
      }
      index := index + 1;
    }
    return Accepted;
  }

  lemma {:induction false} NeighboursOverlap(segments: seq<Segment>, index: nat)
    requires 1 <= index < |Sorted(segments, ByOffset)|
    ensures var ordered := Sorted(segments, ByOffset);
      ordered[index].offset < ordered[index - 1].End() ==> OverlapWitness(segments, ordered[index - 1], ordered[index])
  {
    hide Sorted;
    var ordered := Sorted(segments, ByOffset);
    SortedIsPermutation(segments, ByOffset);
    SameMembers(ordered, segments);
    assert ordered[index - 1] in ordered && ordered[index] in ordered;
    ByOffsetIsTotal();
    SortedIsOrdered(segments, ByOffset);
    assert ByOffset(ordered[index - 1], ordered[index]);
  }

  lemma NamesGrow(segments: seq<Segment>, index: nat)
    requires index < |segments|
    ensures Names(segments[..index + 1]) == Names(segments[..index]) + {segments[index].name}
  {
    assert forall j :: 0 <= j < index ==> segments[..index][j] == segments[j] == segments[..index + 1][j];
    assert segments[..index + 1][index] == segments[index];
  }

  lemma SeenNames(segments: seq<Segment>, index: nat)
    requires index < |segments|
    ensures segments[index].name in Names(segments[..index]) <==>
            exists j :: 0 <= j < index && segments[j].name == segments[index].name
  {
    assert forall j :: 0 <= j < index ==> segments[..index][j] == segments[j];
  }

  predicate OverlapWitness(segments: seq<Segment>, first: Segment, second: Segment) {
    first in segments && second in segments && first.offset <= second.offset < first.End()
  }

  // What each refusal of a row means

  /** The characters `str.isspace` holds of, by code point. */
  lemma SpaceExactly(c: char)
    ensures IsSpace(c) <==>
      var n := c as int;
      || 0x09 <= n <= 0x0D || 0x1C <= n <= 0x20 || n == 0x85 || n == 0xA0 || n == 0x1680
      || 0x2000 <= n <= 0x200A || n == 0x2028 || n == 0x2029 || n == 0x202F || n == 0x205F || n == 0x3000
  {
    assert IsSpace(c) <==>
      || c in "\t\n\U{0B}\U{0C}\r" || c in "\U{1C}\U{1D}\U{1E}\U{1F} " || c in "\U{85}\U{A0}\U{1680}"
      || c in "\U{2028}\U{2029}\U{202F}\U{205F}\U{3000}" || '\U{2000}' <= c <= '\U{200A}';
  }

  /** Row i of the table has the fault; the faults are independent of one another. */
  ghost predicate HasFault(segments: seq<Segment>, i: nat, frame: Frame, why: Problem)
    requires i < |segments|
  {
    var s := segments[i];
    match why
    case BlankName => forall k :: 0 <= k < |s.name| ==> IsSpace(s.name[k])
    case UnknownRole => s.role !in ROLES
    case NotLittleEndian => s.byteOrder != "little"
    case NegativeField => s.layerStart < 0 || s.layerEnd < 0 || s.offset < 0 || s.nbytes < 0
    case LayersBackwards => s.layerEnd < s.layerStart
    case EmptyShape => |s.shape| == 0
    case NegativeDimension => exists k :: 0 <= k < |s.shape| && s.shape[k] < 0
    case BlankLayout => forall k :: 0 <= k < |s.layout| ==> IsSpace(s.layout[k])
    case SizeMismatch =>
      || (s.dtype == "f32" && s.nbytes != 4 * Product(s.shape))
      || (s.dtype in {"f16", "bf16"} && s.nbytes != 2 * Product(s.shape))
    case UnknownDtype => s.dtype !in {"f32", "f16", "bf16", "fp8_e4m3", "q8_0", "q4_0"}
    case DuplicateName => exists j :: 0 <= j < i && segments[j].name == s.name
    case BeforePayload => s.offset < frame.payloadStart
    case Misaligned => frame.alignment != 0 && s.offset % frame.alignment != 0
    case PastEndOfFile => s.offset + s.nbytes > frame.fileSize
  }

  /** The order in which the faults of one row are looked for. */
  ghost function Rank(why: Problem): nat {
    match why
    case BlankName => 0
    case UnknownRole => 1
    case NotLittleEndian => 2
    case NegativeField => 3
    case LayersBackwards => 4
    case EmptyShape => 5
    case NegativeDimension => 6
    case BlankLayout => 7
    case SizeMismatch => 8
    case UnknownDtype => 9
    case DuplicateName => 10
    case BeforePayload => 11
    case Misaligned => 12
    case PastEndOfFile => 13
  }

  ghost predicate Faultless(segments: seq<Segment>, i: nat, frame: Frame)
    requires i < |segments|
  {
    forall why :: !HasFault(segments, i, frame, why)
  }

  ghost predicate FirstFault(segments: seq<Segment>, i: nat, frame: Frame, why: Problem)
    requires i < |segments|
  {
    && HasFault(segments, i, frame, why)
    && forall other :: HasFault(segments, i, frame, other) ==> Rank(why) <= Rank(other)
  }

  /** A row is refused for its first fault and passes when it has none. */
  lemma RowExactly(segments: seq<Segment>, i: nat, frame: Frame)
    requires i < |segments|
    ensures RowSound(segments, i, frame) <==> Faultless(segments, i, frame)
    ensures var problem := CheckRow(segments[i], Names(segments[..i]), frame);
      && (problem.None? <==> Faultless(segments, i, frame))
      && (problem.Some? ==> FirstFault(segments, i, frame, problem.value))
  {
    hide IsSpace, Product;
    SeenNames(segments, i);
    var problem := CheckRow(segments[i], Names(segments[..i]), frame);
    assert forall why :: HasFault(segments, i, frame, why) ==> problem.Some? && Rank(problem.value) <= Rank(why);
    if problem.Some? {
      assert HasFault(segments, i, frame, problem.value);
      assert !RowSound(segments, i, frame);
    }
  }

  /** The rows pass if and only if none has a fault; otherwise the first fault of the first such row is reported. */
  lemma ValidatesExactly(segments: seq<Segment>, frame: Frame, index: nat, why: Problem)
    ensures RowsSound(segments, frame) <==> forall i :: 0 <= i < |segments| ==> Faultless(segments, i, frame)
    ensures FirstBadRow(segments, frame, index, why) <==>
      && index < |segments| && FirstFault(segments, index, frame, why)
      && forall i :: 0 <= i < index ==> Faultless(segments, i, frame)
  {
    hide HasFault, CheckRow, RowSound, Faultless, FirstFault;
    forall i | 0 <= i < |segments|
      ensures RowSound(segments, i, frame) <==> Faultless(segments, i, frame)
    {
      RowExactly(segments, i, frame);
    }
    if index < |segments| {
      RowExactly(segments, index, frame);
      OneFirstFault(segments, index, frame);
    }
  }

  lemma OneFirstFault(segments: seq<Segment>, i: nat, frame: Frame)
    requires i < |segments|
    ensures Faultless(segments, i, frame) ==> forall why :: !FirstFault(segments, i, frame, why)
    ensures forall a, b :: FirstFault(segments, i, frame, a) && FirstFault(segments, i, frame, b) ==> a == b
  {
    hide HasFault;
  }

  // What acceptance means for pairs that are not neighbours

  predicate Pairwise(ordered: seq<Segment>) {
    forall i, j :: 0 <= i < j < |ordered| ==> ordered[i].End() <= ordered[j].offset
  }

  /** x stands above y in the table, and the stable sort keeps it above when their offsets tie. */
  predicate Apart(x: Segment, y: Segment) {
    if x.offset <= y.offset then x.End() <= y.offset else y.End() <= x.offset
  }

  predicate AllApart(segments: seq<Segment>) {
    forall i, j :: 0 <= i < j < |segments| ==> Apart(segments[i], segments[j])
  }

  predicate NoneNegative(segments: seq<Segment>) {
    forall i :: 0 <= i < |segments| ==> segments[i].nbytes >= 0
  }

  /** Checking neighbours of the sorted table is checking every pair of it. */
  lemma {:induction false} NeighboursArePairs(ordered: seq<Segment>)
    requires NoneNegative(ordered)
    ensures NeighboursApart(ordered) <==> Pairwise(ordered)
  {
    if NeighboursApart(ordered) {
      forall i, j | 0 <= i < j < |ordered|
        ensures ordered[i].End() <= ordered[j].offset
      {
        Chain(ordered, i, j);
      }
    }
  }

  lemma {:induction false} Chain(ordered: seq<Segment>, i: nat, j: nat)
    requires NoneNegative(ordered) && NeighboursApart(ordered) && i < j < |ordered|
    ensures ordered[i].End() <= ordered[j].offset
    decreases j - i
  {
    if i + 1 < j {
      Chain(ordered, i + 1, j);
    }
  }

  lemma {:induction false} InsertPairwise(x: Segment, s: seq<Segment>)
    requires Ordered(s, ByOffset) && x.nbytes >= 0 && NoneNegative(s)
    ensures Pairwise(Insert(x, s, ByOffset)) <==> Pairwise(s) && forall y :: y in s ==> Apart(x, y)
  {
    hide Pairwise;
    if s == [] {
      PairwiseCons(x, s);
      assert s == [] && [x] + s == [x];
    } else if ByOffset(x, s[0]) {
      PairwiseCons(x, s);
      OrderedFromHead(s);
      assert forall y :: y in s ==> x.offset <= y.offset;
    } else {
      var tail, rest := s[1..], Insert(x, s[1..], ByOffset);
      InsertPairwise(x, tail);
      InsertMembers(x, tail, ByOffset);
      PairwiseCons(s[0], rest);
      PairwiseCons(s[0], tail);
      assert s == [s[0]] + tail;
      assert Apart(x, s[0]) <==> s[0].End() <= x.offset;
      assert x in rest;
    }
  }

  lemma OrderedFromHead(s: seq<Segment>)
    requires s != [] && Ordered(s, ByOffset)
    ensures forall y :: y in s ==> s[0].offset <= y.offset
  {
    forall y | y in s
      ensures s[0].offset <= y.offset
    {
      var i :| 0 <= i < |s| && s[i] == y;
      assert i > 0 ==> ByOffset(s[0], s[i]);
    }
  }

  lemma PairwiseCons(x: Segment, s: seq<Segment>)
    ensures Pairwise([x] + s) <==> Pairwise(s) && forall y :: y in s ==> x.End() <= y.offset
  {
    var t := [x] + s;
    if Pairwise(t) {
      PairwiseTail(t);
      assert t[1..] == s;
      forall y | y in s
        ensures x.End() <= y.offset
      {
        var i :| 0 <= i < |s| && s[i] == y;
        assert t[0].End() <= t[i + 1].offset;
      }
    }
    if Pairwise(s) && forall y :: y in s ==> x.End() <= y.offset {
      forall i, j | 0 <= i < j < |t|
        ensures t[i].End() <= t[j].offset
      {
        if i == 0 {
          assert t[j] in s;
        } else {
          assert s[i - 1].End() <= s[j - 1].offset;
        }
      }
    }
  }

  lemma PairwiseTail(t: seq<Segment>)
    requires t != [] && Pairwise(t)
    ensures Pairwise(t[1..])
  {
  }

  lemma AllApartCons(x: Segment, s: seq<Segment>)
    ensures AllApart([x] + s) <==> AllApart(s) && forall y :: y in s ==> Apart(x, y)
  {
    var t := [x] + s;
    assert forall i :: 0 <= i < |s| ==> t[i + 1] == s[i];
    if AllApart(t) {
      forall y | y in s
        ensures Apart(x, y)
      {
        var i :| 0 <= i < |s| && s[i] == y;
        assert Apart(t[0], t[i + 1]);
      }
      forall i, j | 0 <= i < j < |s|
        ensures Apart(s[i], s[j])
      {
        assert Apart(t[i + 1], t[j + 1]);
      }
    }
  }

  lemma {:induction false} SortedPairs(s: seq<Segment>)
    requires NoneNegative(s)
    ensures Pairwise(Sorted(s, ByOffset)) <==> AllApart(s)
  {
    hide Pairwise, AllApart, Apart, Insert;
    if s == [] {
      EmptyTableIsApart();
    } else {
      var tail := s[1..];
      SortedPairs(tail);
      ByOffsetIsTotal();
      SortedIsOrdered(tail, ByOffset);
      SortedIsPermutation(tail, ByOffset);
      SameMembers(Sorted(tail, ByOffset), tail);
      SortedNoneNegative(tail);
      InsertPairwise(s[0], Sorted(tail, ByOffset));
      AllApartCons(s[0], tail);
      assert s == [s[0]] + tail;
    }
  }

  lemma EmptyTableIsApart()
    ensures Pairwise([]) && AllApart([])
  {
  }

  lemma {:induction false} SortedNoneNegative(s: seq<Segment>)
    requires NoneNegative(s)
    ensures NoneNegative(Sorted(s, ByOffset))
  {
    SortedIsPermutation(s, ByOffset);
    var t := Sorted(s, ByOffset);
    SameMembers(t, s);
    forall i | 0 <= i < |t|
      ensures t[i].nbytes >= 0
    {
      assert t[i] in t;
    }
  }

  /**
   * The exact reach of the neighbour check: a table with sound rows is accepted if and only
   * if every pair of rows, adjacent after sorting or not, stands apart.
   */
  lemma {:induction false} NeighbourCheckCoversAllPairs(segments: seq<Segment>, frame: Frame)
    requires RowsSound(segments, frame)
    ensures NeighboursApart(Sorted(segments, ByOffset)) <==> AllApart(segments)
  {
    hide AllApart, Sorted, NeighboursApart, Pairwise;
    assert NoneNegative(segments) by {
      forall i | 0 <= i < |segments|
        ensures segments[i].nbytes >= 0
      {
        assert RowSound(segments, i, frame);
      }
    }
    SortedNoneNegative(segments);
    NeighboursArePairs(Sorted(segments, ByOffset));
    SortedPairs(segments);
  }

  /** No byte of the payload belongs to two rows of the table. */
  ghost predicate NoByteTwice(segments: seq<Segment>) {
    forall i, j, p | 0 <= i < j < |segments| ::
      !(segments[i].Claims(p) && segments[j].Claims(p))
  }

  /** Acceptance places every row inside the file and gives no byte to two rows, neighbours or not. */
  lemma AcceptedMeansDisjoint(segments: seq<Segment>, frame: Frame)
    requires Acceptable(segments, frame)
    ensures NoByteTwice(segments)
    ensures forall i, p :: 0 <= i < |segments| && segments[i].Claims(p) ==> frame.payloadStart <= p < frame.fileSize
    ensures forall i, j :: 0 <= i < j < |segments| ==> segments[i].name != segments[j].name
  {
    NeighbourCheckCoversAllPairs(segments, frame);
    forall i, j, p | 0 <= i < j < |segments|
      ensures !(segments[i].Claims(p) && segments[j].Claims(p))
    {
      assert Apart(segments[i], segments[j]);
    }
    forall i, p | 0 <= i < |segments| && segments[i].Claims(p)
      ensures frame.payloadStart <= p < frame.fileSize
    {
      assert RowSound(segments, i, frame);
    }
    forall i, j | 0 <= i < j < |segments|
      ensures segments[i].name != segments[j].name
    {
      assert RowSound(segments, j, frame);
    }
  }

  /** When no row is empty the check refuses nothing but shared bytes. */
  lemma DisjointMeansAccepted(segments: seq<Segment>, frame: Frame)
    requires RowsSound(segments, frame) && segments != []
    requires forall i :: 0 <= i < |segments| ==> segments[i].nbytes > 0
    ensures Acceptable(segments, frame) <==> NoByteTwice(segments)
  {
    NeighbourCheckCoversAllPairs(segments, frame);
    if NoByteTwice(segments) {
      forall i, j | 0 <= i < j < |segments|
        ensures Apart(segments[i], segments[j])
      {
        assert !(segments[i].Claims(segments[j].offset) && segments[j].Claims(segments[j].offset));
        assert !(segments[i].Claims(segments[i].offset) && segments[j].Claims(segments[i].offset));
      }
    } else {
      var i, j, p :| 0 <= i < j < |segments| && segments[i].Claims(p) && segments[j].Claims(p);
      assert !Apart(segments[i], segments[j]);
    }
  }

  /**
   * An empty row shares no byte with anyone, yet the order of the table decides whether it is
   * accepted: after a row that starts where it lies it is refused, before that row it is not.
   */
  lemma EmptyRowsDependOnTableOrder(full: Segment, empty: Segment, frame: Frame)
    requires CheckOne(full) == None && CheckPlace(full, frame) == None && full.nbytes > 0
    requires CheckOne(empty) == None && CheckPlace(empty, frame) == None && empty.nbytes == 0
    requires full.name != empty.name && empty.offset == full.offset
    ensures NoByteTwice([full, empty])
    ensures !Acceptable([full, empty], frame)
    ensures Acceptable([empty, full], frame)
  {
    hide CheckOne, CheckPlace, Sorted;
    assert RowsSound([full, empty], frame) && RowsSound([empty, full], frame);
    NeighbourCheckCoversAllPairs([full, empty], frame);
    NeighbourCheckCoversAllPairs([empty, full], frame);
    assert !Apart([full, empty][0], [full, empty][1]);
    assert Apart(empty, full);
  }
}
