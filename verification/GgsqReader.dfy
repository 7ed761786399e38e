/** The bounded reader of the ggsq/3 body: attention, recurrent and checkpoint sections. */
module GgsqReader {
  import opened Wrappers
  import opened Bytes

  datatype GgsqError =
    | NegativeCount
    | PastSection
    | FileShort
    | ImplausibleStreams
    | UnsupportedStreams
    | TooManySeqIds
    | UnexpectedSeqIds
    | ImplausibleLayers
    | LayerMapLength
    | LayerMapRepeats
    | LayerMapOutOfRange
    | TransposedRecurrent
    | UnsupportedType
    | PartialBlock
    | ElementSizeDisagrees
    | NoMagic
    | BadVersion
    | TooManyCheckpoints
    | ImpossibleExtent
    | BufferTooLong
    | UnprovenState
    | NoTargetState
    | TargetTooShort
    | TargetEndDisagrees
    | AppendixEndDisagrees
    | UnknownLayer
    | NotAttention

  // ---------------------------------------------------------------------------
  // Types and row sizes
  // ---------------------------------------------------------------------------

  datatype GgmlType = GgmlType(name: string, block: nat, perBlock: nat)

  function TypeById(id: int): (t: Option<GgmlType>)
    ensures t.Some? ==> t.value.block > 0 && t.value.perBlock > 0
  {
    match id
    case 0 => Some(GgmlType("f32", 1, 4))
    case 1 => Some(GgmlType("f16", 1, 2))
    case 2 => Some(GgmlType("q4_0", 32, 18))
    case 3 => Some(GgmlType("q4_1", 32, 20))
    case 6 => Some(GgmlType("q5_0", 32, 22))
    case 7 => Some(GgmlType("q5_1", 32, 24))
    case 8 => Some(GgmlType("q8_0", 32, 34))
    case 9 => Some(GgmlType("q8_1", 32, 40))
    case 30 => Some(GgmlType("bf16", 1, 2))
    case _ => None
  }

  function RowSize(typeId: int, elements: nat): Result<nat, GgsqError> {
    match TypeById(typeId)
    case None => Failure(UnsupportedType)
    case Some(t) => if elements % t.block != 0 then Failure(PartialBlock) else Success(elements / t.block * t.perBlock)
  }

  function ElementsFromRowSize(typeId: int, nbytes: nat): Result<nat, GgsqError> {
    match TypeById(typeId)
    case None => Failure(UnsupportedType)
    case Some(t) => if nbytes % t.perBlock != 0 then Failure(PartialBlock) else Success(nbytes / t.perBlock * t.block)
  }

  /** The stride recovers the width it was computed from, and the width the stride. */
  lemma RowSizeInverse(typeId: int, n: nat)
    ensures RowSize(typeId, n).Success? ==> ElementsFromRowSize(typeId, RowSize(typeId, n).value) == Success(n)
    ensures ElementsFromRowSize(typeId, n).Success? ==> RowSize(typeId, ElementsFromRowSize(typeId, n).value) == Success(n)
  {
    if TypeById(typeId).Some? {
      var t := TypeById(typeId).value;
      MultipleDivides(n / t.block, t.perBlock);
      MultipleDivides(n / t.perBlock, t.block);
    }
  }

  // ---------------------------------------------------------------------------
  // The cursor
  // ---------------------------------------------------------------------------

  /** A file seen through a section bound: reads past `end` are refused even when the file goes on. */
  datatype View = View(file: bytes, end: nat)

  function TakeAt(v: View, off: nat, count: int): (r: Result<nat, GgsqError>)
    ensures r.Success? ==> count >= 0 && r.value == off + count <= v.end && (count > 0 ==> r.value <= |v.file|)
  {
    if count < 0 then Failure(NegativeCount)
    else if off + count > v.end then Failure(PastSection)
    else if |ReadAt(v.file, off, count)| != count then Failure(FileShort)
    else Success(off + count)
  }

  function SkipAt(v: View, off: nat, count: int): (r: Result<nat, GgsqError>)
    ensures r.Success? ==> count >= 0 && r.value == off + count <= v.end
  {
    if count < 0 then Failure(NegativeCount)
    else if off + count > v.end then Failure(PastSection)
    else Success(off + count)
  }

  function U32At(v: View, off: nat): Result<(nat, nat), GgsqError> {
    var o :- TakeAt(v, off, 4);
    Success((U32(v.file, off), o))
  }

  function I32At(v: View, off: nat): Result<(int, nat), GgsqError> {
    var o :- TakeAt(v, off, 4);
    Success((I32(v.file, off), o))
  }

  function U64At(v: View, off: nat): Result<(nat, nat), GgsqError> {
    var o :- TakeAt(v, off, 8);
    Success((U64(v.file, off), o))
  }

  class Reader {
    const view: View
    var offset: nat

    constructor (file: bytes, start: nat, end: nat)
      ensures view == View(file, end) && offset == start
    {
      view := View(file, end);
      offset := start;
    }

    method Take(count: int) returns (r: Result<bytes, GgsqError>)
      modifies this
      ensures match TakeAt(view, old(offset), count)
              case Success(o) => offset == o && r == Success(ReadAt(view.file, old(offset), count))
              case Failure(e) => offset == old(offset) && r == Failure(e)
    {
      if count < 0 { return Failure(NegativeCount); }
      if offset + count > view.end { return Failure(PastSection); }
      var block := ReadAt(view.file, offset, count);
      if |block| != count { return Failure(FileShort); }
      offset := offset + count;
      return Success(block);
    }

    method Skip(count: int) returns (r: Result<nat, GgsqError>)
      modifies this
      ensures match SkipAt(view, old(offset), count)
              case Success(o) => offset == o && r == Success(old(offset))
              case Failure(e) => offset == old(offset) && r == Failure(e)
    {
      if count < 0 { return Failure(NegativeCount); }
      if offset + count > view.end { return Failure(PastSection); }
      var position := offset;
      offset := offset + count;
      return Success(position);
    }

    method ReadU32() returns (r: Result<nat, GgsqError>)
      modifies this
      ensures match U32At(view, old(offset))
              case Success((n, o)) => offset == o && r == Success(n)
              case Failure(e) => offset == old(offset) && r == Failure(e)
    {
      var block :- Take(4);
      assert block[0..4] == view.file[old(offset)..old(offset) + 4];
      return Success(U32(block, 0));
    }

    method ReadI32() returns (r: Result<int, GgsqError>)
      modifies this
      ensures match I32At(view, old(offset))
              case Success((n, o)) => offset == o && r == Success(n)
              case Failure(e) => offset == old(offset) && r == Failure(e)
    {
      var block :- Take(4);
      assert block[0..4] == view.file[old(offset)..old(offset) + 4];
      return Success(I32(block, 0));
    }

    method ReadU64() returns (r: Result<nat, GgsqError>)
      modifies this
      ensures match U64At(view, old(offset))
              case Success((n, o)) => offset == o && r == Success(n)
              case Failure(e) => offset == old(offset) && r == Failure(e)
    {
      var block :- Take(8);
      assert block[0..8] == view.file[old(offset)..old(offset) + 8];
      return Success(U64(block, 0));
    }
  }

  // ---------------------------------------------------------------------------
  // Tensor spans
  // ---------------------------------------------------------------------------

  datatype Kind = Key | Value | ConvState | SsmState

  /** Where one layer's payload lives and how to read it; the bytes stay in the file. */
  datatype TensorSpan = TensorSpan(
    layer: int, kind: Kind, typeId: int, rowSize: nat, nElements: nat,
    offset: nat, nbytes: nat, transposed: bool)

  function RowSpanAt(v: View, off: nat, layer: int, kind: Kind, cells: nat): Result<(TensorSpan, nat), GgsqError> {
    var (typeId, o1) :- I32At(v, off);
    var (stride, o2) :- U64At(v, o1);
    var o3 :- SkipAt(v, o2, cells * stride);
    var n :- ElementsFromRowSize(typeId, stride);
    Success((TensorSpan(layer, kind, typeId, stride, n, o2, cells * stride, false), o3))
  }

  function TransposedSpanAt(v: View, off: nat, layer: int, cells: nat): Result<(TensorSpan, nat), GgsqError> {
    var (typeId, o1) :- I32At(v, off);
    var (sizeEl, o2) :- U32At(v, o1);
    var (width, o3) :- U32At(v, o2);
    match TypeById(typeId)
    case None => Failure(UnsupportedType)
    case Some(t) =>
      if sizeEl != t.perBlock / t.block then Failure(ElementSizeDisagrees) else
      var o4 :- SkipAt(v, o3, width * cells * sizeEl);
      Success((TensorSpan(layer, Value, typeId, sizeEl * cells, width, o3, width * cells * sizeEl, true), o4))
  }

  /** One value span, in whichever of the two layouts the section declared. */
  function SpanAt(v: View, off: nat, layer: int, kind: Kind, cells: nat, transposed: bool): Result<(TensorSpan, nat), GgsqError> {
    if transposed then TransposedSpanAt(v, off, layer, cells) else RowSpanAt(v, off, layer, kind, cells)
  }

  /** The spans of `layers`, in order from `off`, appended to those already collected. */
  function SpansAt(v: View, off: nat, layers: seq<int>, kind: Kind, cells: nat, transposed: bool, acc: seq<TensorSpan>)
    : Result<(seq<TensorSpan>, nat), GgsqError>
    decreases |layers|
  {
    if layers == [] then Success((acc, off)) else
    var (span, o) :- SpanAt(v, off, layers[0], kind, cells, transposed);
    SpansAt(v, o, layers[1..], kind, cells, transposed, acc + [span])
  }

  method ReadSpan(reader: Reader, layer: int, kind: Kind, cells: nat, transposed: bool) returns (r: Result<TensorSpan, GgsqError>)
    modifies reader
    ensures match SpanAt(reader.view, old(reader.offset), layer, kind, cells, transposed)
            case Success((span, o)) => r == Success(span) && reader.offset == o
            case Failure(e) => r == Failure(e)
  {
    hide ElementsFromRowSize;
    var typeId :- reader.ReadI32();
    if !transposed {
      var stride :- reader.ReadU64();
      var offset :- reader.Skip(cells * stride);
      var n :- ElementsFromRowSize(typeId, stride);
      return Success(TensorSpan(layer, kind, typeId, stride, n, offset, cells * stride, false));
    }
    var sizeEl :- reader.ReadU32();
    var width :- reader.ReadU32();
    var t := TypeById(typeId);
    if t.None? { return Failure(UnsupportedType); }
    if sizeEl != t.value.perBlock / t.value.block { return Failure(ElementSizeDisagrees); }
    var offset :- reader.Skip(width * cells * sizeEl);
    return Success(TensorSpan(layer, Value, typeId, sizeEl * cells, width, offset, width * cells * sizeEl, true));
  }

  method ReadSpans(reader: Reader, layers: seq<int>, kind: Kind, cells: nat, transposed: bool, collected: seq<TensorSpan>)
    returns (r: Result<seq<TensorSpan>, GgsqError>)
    modifies reader
    ensures match SpansAt(reader.view, old(reader.offset), layers, kind, cells, transposed, collected)
            case Success((spans, o)) => r == Success(spans) && reader.offset == o
            case Failure(e) => r == Failure(e)
  {
    hide SpanAt;
    var spans := collected;
    var i := 0;
    while i < |layers|
      invariant 0 <= i <= |layers|
      invariant SpansAt(reader.view, old(reader.offset), layers, kind, cells, transposed, collected)
             == SpansAt(reader.view, reader.offset, layers[i..], kind, cells, transposed, spans)
    {
      assert layers[i..][1..] == layers[i + 1..];
      var span :- ReadSpan(reader, layers[i], kind, cells, transposed);
      spans := spans + [span];
      i := i + 1;
    }
    return Success(spans);
  }

  // ---------------------------------------------------------------------------
  // The attention section
  // ---------------------------------------------------------------------------

  datatype AttentionSection = AttentionSection(
    nStream: nat, cellCount: nat, vTrans: bool, nLayer: nat,
    positions: seq<int>, spans: seq<TensorSpan>, endOffset: nat)

  /** What the caller supplies because the file cannot tell it: the per-cell extension and the layer map. */
  datatype AttentionShape = AttentionShape(hasCellExt: bool, cellExtSize: int, layerIndices: Option<seq<int>>)

  function CellAt(v: View, off: nat, shape: AttentionShape): Result<(int, nat), GgsqError> {
    var (pos, o1) :- I32At(v, off);
    var (nSeqId, o2) :- U32At(v, o1);
    if nSeqId > 64 then Failure(TooManySeqIds) else
    var o3 :- if shape.hasCellExt then SkipAt(v, o2, shape.cellExtSize) else Success(o2);
    var o4 :- SkipAt(v, o3, nSeqId * 4);
    Success((pos, o4))
  }

  function CellsAt(v: View, off: nat, n: nat, shape: AttentionShape, acc: seq<int>): Result<(seq<int>, nat), GgsqError>
    decreases n
  {
    if n == 0 then Success((acc, off)) else
    var (pos, o) :- CellAt(v, off, shape);
    CellsAt(v, o, n - 1, shape, acc + [pos])
  }

  function Range(n: nat): (r: seq<int>)
    ensures |r| == n && forall i :: 0 <= i < n ==> r[i] == i
  {
    seq(n, i => i)
  }

  predicate Distinct<T(==)>(s: seq<T>) {
    forall i, j :: 0 <= i < j < |s| ==> s[i] != s[j]
  }

  function LayerMap(n: nat, layerIndices: Option<seq<int>>): Result<seq<int>, GgsqError> {
    match layerIndices
    case None => Success(Range(n))
    case Some(layers) =>
      if |layers| != n then Failure(LayerMapLength)
      else if !Distinct(layers) then Failure(LayerMapRepeats)
      else if exists i :: 0 <= i < |layers| && layers[i] < 0 then Failure(LayerMapOutOfRange)
      else Success(layers)
  }

  datatype Tensors = Tensors(vTrans: bool, nLayer: nat, spans: seq<TensorSpan>, end: nat)

  /** The part of a section after its cells: two counts, then keys for every layer, then values. */
  function TensorsAt(v: View, off: nat, cells: nat, layerIndices: Option<seq<int>>): Result<Tensors, GgsqError> {
    var (vTrans, o1) :- U32At(v, off);
    var (nLayer, o2) :- U32At(v, o1);
    if !(1 <= nLayer <= 512) then Failure(ImplausibleLayers) else
    var layers :- LayerMap(nLayer, layerIndices);
    var (keys, o3) :- SpansAt(v, o2, layers, Key, cells, false, []);
    var (spans, o4) :- SpansAt(v, o3, layers, Value, cells, vTrans != 0, keys);
    Success(Tensors(vTrans != 0, nLayer, spans, o4))
  }

  function AttentionAt(f: bytes, start: nat, end: nat, shape: AttentionShape): Result<AttentionSection, GgsqError> {
    var v := View(f, end);
    var (nStream, o1) :- U32At(v, start);
    if !(1 <= nStream <= 64) then Failure(ImplausibleStreams) else
    if nStream != 1 then Failure(UnsupportedStreams) else
    var (cells, o2) :- U32At(v, o1);
    if cells == 0 then Success(AttentionSection(nStream, 0, false, 0, [], [], o2)) else
    var (positions, o3) :- CellsAt(v, o2, cells, shape, []);
    var tensors :- TensorsAt(v, o3, cells, shape.layerIndices);
    Success(AttentionSection(nStream, cells, tensors.vTrans, tensors.nLayer, positions, tensors.spans, tensors.end))
  }

  method ReadCell(reader: Reader, shape: AttentionShape) returns (r: Result<int, GgsqError>)
    modifies reader
    ensures match CellAt(reader.view, old(reader.offset), shape)
            case Success((pos, o)) => r == Success(pos) && reader.offset == o
            case Failure(e) => r == Failure(e)
  {
    var pos :- reader.ReadI32();
    var nSeqId :- reader.ReadU32();
    if nSeqId > 64 { return Failure(TooManySeqIds); }
    if shape.hasCellExt {
      var _ :- reader.Skip(shape.cellExtSize);
    }
    var _ :- reader.Skip(nSeqId * 4);
    return Success(pos);
  }

  method ReadCells(reader: Reader, n: nat, shape: AttentionShape) returns (r: Result<seq<int>, GgsqError>)
    modifies reader
    ensures match CellsAt(reader.view, old(reader.offset), n, shape, [])
            case Success((positions, o)) => r == Success(positions) && reader.offset == o
            case Failure(e) => r == Failure(e)
  {
    hide CellAt;
    var positions := [];
    var i := 0;
    while i < n
      invariant 0 <= i <= n
      invariant CellsAt(reader.view, old(reader.offset), n, shape, []) == CellsAt(reader.view, reader.offset, n - i, shape, positions)
    {
      var pos :- ReadCell(reader, shape);
      positions := positions + [pos];
      i := i + 1;
    }
    return Success(positions);
  }

  method ReadTensors(reader: Reader, cells: nat, layerIndices: Option<seq<int>>) returns (r: Result<Tensors, GgsqError>)
    modifies reader
    ensures r == TensorsAt(reader.view, old(reader.offset), cells, layerIndices)
    ensures r.Success? ==> reader.offset == r.value.end
  {
    hide SpansAt, LayerMap;
    var vTrans :- reader.ReadU32();
    var nLayer :- reader.ReadU32();
    if !(1 <= nLayer <= 512) { return Failure(ImplausibleLayers); }
    var layers :- LayerMap(nLayer, layerIndices);
    var keys :- ReadSpans(reader, layers, Key, cells, false, []);
    var spans :- ReadSpans(reader, layers, Value, cells, vTrans != 0, keys);
    return Success(Tensors(vTrans != 0, nLayer, spans, reader.offset));
  }

  method ReadAttentionSection(f: bytes, start: nat, end: nat, shape: AttentionShape)
    returns (r: Result<AttentionSection, GgsqError>)
    ensures r == AttentionAt(f, start, end, shape)
  {
    hide CellsAt, TensorsAt;
    var reader := new Reader(f, start, end);
    var nStream :- reader.ReadU32();
    if !(1 <= nStream <= 64) { return Failure(ImplausibleStreams); }
    if nStream != 1 { return Failure(UnsupportedStreams); }
    var cells :- reader.ReadU32();
    if cells == 0 { return Success(AttentionSection(nStream, 0, false, 0, [], [], reader.offset)); }

    var positions :- ReadCells(reader, cells, shape);
    var tensors :- ReadTensors(reader, cells, shape.layerIndices);
    return Success(AttentionSection(nStream, cells, tensors.vTrans, tensors.nLayer, positions, tensors.spans, reader.offset));
  }

  // ---------------------------------------------------------------------------
  // Materialising a section
  // ---------------------------------------------------------------------------

  datatype LayerHeads = LayerHeads(nKvHead: nat, headDim: nat, valueHeadDim: nat)

  /** The decoder of one span's payload, given its head count and head dimension. */
  type SpanDecoder<!T> = (TensorSpan, nat, nat) -> Result<T, GgsqError>

  function MaterialiseSpan<T>(span: TensorSpan, layout: map<int, LayerHeads>, decode: SpanDecoder<T>): Result<T, GgsqError> {
    if span.layer !in layout then Failure(UnknownLayer)
    else if span.kind != Key && span.kind != Value then Failure(NotAttention)
    else
      var heads := layout[span.layer];
      decode(span, heads.nKvHead, if span.kind == Key then heads.headDim else heads.valueHeadDim)
  }

  /** The entries written for `spans` in order, a later span overwriting an earlier one of the same layer and kind. */
  function Materialised<T>(spans: seq<TensorSpan>, layout: map<int, LayerHeads>, decode: SpanDecoder<T>, out: map<(int, Kind), T>)
    : Result<map<(int, Kind), T>, GgsqError>
  {
    if spans == [] then Success(out) else
    var value :- MaterialiseSpan(spans[0], layout, decode);
    Materialised(spans[1..], layout, decode, out[(spans[0].layer, spans[0].kind) := value])
  }

  method MaterialiseSection<T>(section: AttentionSection, layout: map<int, LayerHeads>, decode: SpanDecoder<T>)
    returns (r: Result<map<(int, Kind), T>, GgsqError>)
    ensures r == Materialised(section.spans, layout, decode, map[])
  {
    var spans := section.spans;
    var out := map[];
    for i := 0 to |spans|
      invariant Materialised(spans, layout, decode, map[]) == Materialised(spans[i..], layout, decode, out)
    {
      assert spans[i..][1..] == spans[i + 1..];
      var span := spans[i];
      if span.layer !in layout { return Failure(UnknownLayer); }
      var heads := layout[span.layer];
      if span.kind != Key && span.kind != Value { return Failure(NotAttention); }
      var dim := if span.kind == Key then heads.headDim else heads.valueHeadDim;
      var value :- decode(span, heads.nKvHead, dim);
      out := out[(span.layer, span.kind) := value];
    }
    return Success(out);
  }

  // ---------------------------------------------------------------------------
  // The recurrent section
  // ---------------------------------------------------------------------------

  datatype RecurrentSection = RecurrentSection(
    nStream: nat, cellCount: nat, sTrans: bool, nLayer: nat,
    positions: seq<int>, spans: seq<TensorSpan>, endOffset: nat)

  function RecurrentCellAt(v: View, off: nat, singleSequence: bool): Result<(int, nat), GgsqError> {
    var (pos, o1) :- I32At(v, off);
    var (nSeqId, o2) :- U32At(v, o1);
    if singleSequence && nSeqId != 0 then Failure(UnexpectedSeqIds) else
    if nSeqId > 64 then Failure(TooManySeqIds) else
    var o3 :- SkipAt(v, o2, nSeqId * 4);
    Success((pos, o3))
  }

  function RecurrentCellsAt(v: View, off: nat, n: nat, singleSequence: bool, acc: seq<int>): Result<(seq<int>, nat), GgsqError>
    decreases n
  {
    if n == 0 then Success((acc, off)) else
    var (pos, o) :- RecurrentCellAt(v, off, singleSequence);
    RecurrentCellsAt(v, o, n - 1, singleSequence, acc + [pos])
  }

  function RecurrentMap(nLayer: nat, layers: seq<int>): Result<seq<int>, GgsqError> {
    if exists i :: 0 <= i < |layers| && !(0 <= layers[i] < nLayer) then Failure(LayerMapOutOfRange)
    else if !Distinct(layers) then Failure(LayerMapRepeats)
    else Success(layers)
  }

  function RecurrentAt(f: bytes, start: nat, end: nat, layers: seq<int>, singleSequence: bool): Result<RecurrentSection, GgsqError> {
    var v := View(f, end);
    var (cells, o1) :- U32At(v, start);
    if cells == 0 then Success(RecurrentSection(1, 0, false, 0, [], [], o1)) else
    var (positions, o2) :- RecurrentCellsAt(v, o1, cells, singleSequence, []);
    var (sTrans, o3) :- U32At(v, o2);
    if sTrans != 0 then Failure(TransposedRecurrent) else
    var (nLayer, o4) :- U32At(v, o3);
    if !(1 <= nLayer <= 512) then Failure(ImplausibleLayers) else
    var checked :- RecurrentMap(nLayer, layers);
    var (conv, o5) :- SpansAt(v, o4, checked, ConvState, cells, false, []);
    var (spans, o6) :- SpansAt(v, o5, checked, SsmState, cells, false, conv);
    Success(RecurrentSection(1, cells, false, nLayer, positions, spans, o6))
  }

  method ReadRecurrentCell(reader: Reader, singleSequence: bool) returns (r: Result<int, GgsqError>)
    modifies reader
    ensures match RecurrentCellAt(reader.view, old(reader.offset), singleSequence)
            case Success((pos, o)) => r == Success(pos) && reader.offset == o
            case Failure(e) => r == Failure(e)
  {
    var pos :- reader.ReadI32();
    var nSeqId :- reader.ReadU32();
    if singleSequence && nSeqId != 0 { return Failure(UnexpectedSeqIds); }
    if nSeqId > 64 { return Failure(TooManySeqIds); }
    var _ :- reader.Skip(nSeqId * 4);
    return Success(pos);
  }

  method ReadRecurrentCells(reader: Reader, n: nat, singleSequence: bool) returns (r: Result<seq<int>, GgsqError>)
    modifies reader
    ensures match RecurrentCellsAt(reader.view, old(reader.offset), n, singleSequence, [])
            case Success((positions, o)) => r == Success(positions) && reader.offset == o
            case Failure(e) => r == Failure(e)
  {
    hide RecurrentCellAt;
    var positions := [];
    var i := 0;
    while i < n
      invariant 0 <= i <= n
      invariant RecurrentCellsAt(reader.view, old(reader.offset), n, singleSequence, [])
             == RecurrentCellsAt(reader.view, reader.offset, n - i, singleSequence, positions)
    {
      var pos :- ReadRecurrentCell(reader, singleSequence);
      positions := positions + [pos];
      i := i + 1;
    }
    return Success(positions);
  }

  method ReadRecurrentSection(f: bytes, start: nat, end: nat, layers: seq<int>, singleSequence: bool)
    returns (r: Result<RecurrentSection, GgsqError>)
    ensures r == RecurrentAt(f, start, end, layers, singleSequence)
  {
    hide RecurrentCellsAt, SpansAt, RecurrentMap;
    var reader := new Reader(f, start, end);
    var cells :- reader.ReadU32();
    if cells == 0 { return Success(RecurrentSection(1, 0, false, 0, [], [], reader.offset)); }

    var positions :- ReadRecurrentCells(reader, cells, singleSequence);
    var sTrans :- reader.ReadU32();
    if sTrans != 0 { return Failure(TransposedRecurrent); }
    var nLayer :- reader.ReadU32();
    if !(1 <= nLayer <= 512) { return Failure(ImplausibleLayers); }
    var checked :- RecurrentMap(nLayer, layers);
    var conv :- ReadSpans(reader, checked, ConvState, cells, false, []);
    var spans :- ReadSpans(reader, checked, SsmState, cells, false, conv);
    return Success(RecurrentSection(1, cells, false, nLayer, positions, spans, reader.offset));
  }

  // ---------------------------------------------------------------------------
  // The SCKP appendix, decoded
  // ---------------------------------------------------------------------------

  const SCKP_MAGIC: bytes := [0x53, 0x43, 0x4B, 0x50]
  const CHECKPOINT_PAYLOAD_PREAMBLE := 8
  const MAX_CHECKPOINTS := 1024
  const MAX_BUFFER := 0x4_0000_0000

  datatype CheckpointBlob = CheckpointBlob(
    extent: Extent, target: RecurrentSection, targetOffset: nat, targetNbytes: nat)

  /** The 16-byte record: int64 n_tokens, int32 pos_min, int32 pos_max. */
  datatype Extent = Extent(nTokens: int, posMin: int, posMax: int) {
    predicate Impossible() {
      nTokens < 0 || posMin < 0 || posMax < posMin
    }
  }

  function ExtentIn(f: bytes, o: nat): Extent
    requires o + 16 <= |f|
  {
    Extent(I64(f, o), I32(f, o + 8), I32(f, o + 12))
  }

  function ExtentAt(v: View, off: nat): Result<(Extent, nat), GgsqError> {
    var o :- TakeAt(v, off, 16);
    if ExtentIn(v.file, off).Impossible() then Failure(ImpossibleExtent) else Success((ExtentIn(v.file, off), o))
  }

  /** One length-prefixed buffer: where its payload starts, how long it is, and where it ends. */
  function BufferAt(v: View, off: nat): Result<(nat, nat, nat), GgsqError> {
    var (length, o1) :- U64At(v, off);
    if length > MAX_BUFFER then Failure(BufferTooLong) else
    var o2 :- SkipAt(v, o1, length);
    Success((o1, length, o2))
  }

  /** The recurrent state inside data_tgt, past its preamble; it must close the payload exactly. */
  function TargetAt(f: bytes, offset: nat, length: nat, layers: seq<int>): Result<RecurrentSection, GgsqError> {
    if length == 0 then Failure(NoTargetState) else
    if length <= CHECKPOINT_PAYLOAD_PREAMBLE then Failure(TargetTooShort) else
    var target :- RecurrentAt(f, offset + CHECKPOINT_PAYLOAD_PREAMBLE, offset + length, layers, true);
    if target.endOffset != offset + length then Failure(TargetEndDisagrees) else Success(target)
  }

  function CheckpointAt(v: View, off: nat, layers: seq<int>): Result<(CheckpointBlob, nat), GgsqError> {
    var (extent, o1) :- ExtentAt(v, off);
    var (tgtOffset, tgtLength, o2) :- BufferAt(v, o1);
    var (_, dftLength, o3) :- BufferAt(v, o2);
    var (_, specLength, o4) :- BufferAt(v, o3);
    if dftLength != 0 || specLength != 0 then Failure(UnprovenState) else
    var target :- TargetAt(v.file, tgtOffset, tgtLength, layers);
    Success((CheckpointBlob(extent, target, tgtOffset, tgtLength), o4))
  }

  function CheckpointsAt(v: View, off: nat, n: nat, layers: seq<int>, acc: seq<CheckpointBlob>): Result<(seq<CheckpointBlob>, nat), GgsqError>
    decreases n
  {
    if n == 0 then Success((acc, off)) else
    var (blob, o) :- CheckpointAt(v, off, layers);
    CheckpointsAt(v, o, n - 1, layers, acc + [blob])
  }

  /** Magic, version and count: 12 bytes. */
  function AppendixHeaderAt(v: View, start: nat): Result<(nat, nat), GgsqError> {
    var o1 :- TakeAt(v, start, 4);
    if v.file[start..start + 4] != SCKP_MAGIC then Failure(NoMagic) else
    var (version, o2) :- U32At(v, o1);
    if version != 1 then Failure(BadVersion) else
    var (count, o3) :- U32At(v, o2);
    if count > MAX_CHECKPOINTS then Failure(TooManyCheckpoints) else Success((count, o3))
  }

  function AppendixAt(f: bytes, start: nat, end: nat, layers: seq<int>): Result<seq<CheckpointBlob>, GgsqError> {
    var v := View(f, end);
    var (count, o1) :- AppendixHeaderAt(v, start);
    var (blobs, o2) :- CheckpointsAt(v, o1, count, layers, []);
    if o2 != end then Failure(AppendixEndDisagrees) else Success(blobs)
  }

  method ReadExtent(reader: Reader) returns (r: Result<Extent, GgsqError>)
    modifies reader
    ensures match ExtentAt(reader.view, old(reader.offset))
            case Success((extent, o)) => r == Success(extent) && reader.offset == o
            case Failure(e) => r == Failure(e)
  {
    ghost var off := reader.offset;
    var record :- reader.Take(16);
    SliceFields(reader.view.file, off, off + 16, 0);
    SliceFields(reader.view.file, off, off + 16, 8);
    SliceFields(reader.view.file, off, off + 16, 12);
    var extent := ExtentIn(record, 0);
    if extent.Impossible() { return Failure(ImpossibleExtent); }
    return Success(extent);
  }

  method ReadBuffer(reader: Reader) returns (r: Result<(nat, nat), GgsqError>)
    modifies reader
    ensures match BufferAt(reader.view, old(reader.offset))
            case Success((position, length, o)) => r == Success((position, length)) && reader.offset == o
            case Failure(e) => r == Failure(e)
  {
    var length :- reader.ReadU64();
    if length > MAX_BUFFER { return Failure(BufferTooLong); }
    var position :- reader.Skip(length);
    return Success((position, length));
  }

  method ReadTarget(f: bytes, offset: nat, length: nat, layers: seq<int>) returns (r: Result<RecurrentSection, GgsqError>)
    ensures r == TargetAt(f, offset, length, layers)
  {
    hide RecurrentAt;
    if length == 0 { return Failure(NoTargetState); }
    if length <= CHECKPOINT_PAYLOAD_PREAMBLE { return Failure(TargetTooShort); }
    var target :- ReadRecurrentSection(f, offset + CHECKPOINT_PAYLOAD_PREAMBLE, offset + length, layers, true);
    if target.endOffset != offset + length { return Failure(TargetEndDisagrees); }
    return Success(target);
  }

  method ReadCheckpoint(reader: Reader, layers: seq<int>) returns (r: Result<CheckpointBlob, GgsqError>)
    modifies reader
    ensures match CheckpointAt(reader.view, old(reader.offset), layers)
            case Success((blob, o)) => r == Success(blob) && reader.offset == o
            case Failure(e) => r == Failure(e)
  {
    hide TargetAt, BufferAt, ExtentAt;
    var extent :- ReadExtent(reader);
    var tgt :- ReadBuffer(reader);
    var dft :- ReadBuffer(reader);
    var spec :- ReadBuffer(reader);
    if dft.1 != 0 || spec.1 != 0 { return Failure(UnprovenState); }
    var target :- ReadTarget(reader.view.file, tgt.0, tgt.1, layers);
    return Success(CheckpointBlob(extent, target, tgt.0, tgt.1));
  }

  method ReadCheckpoints(reader: Reader, n: nat, layers: seq<int>) returns (r: Result<seq<CheckpointBlob>, GgsqError>)
    modifies reader
    ensures match CheckpointsAt(reader.view, old(reader.offset), n, layers, [])
            case Success((blobs, o)) => r == Success(blobs) && reader.offset == o
            case Failure(e) => r == Failure(e)
  {
    hide CheckpointAt;
    var blobs := [];
    var i := 0;
    while i < n
      invariant 0 <= i <= n
      invariant CheckpointsAt(reader.view, old(reader.offset), n, layers, []) == CheckpointsAt(reader.view, reader.offset, n - i, layers, blobs)
    {
      var blob :- ReadCheckpoint(reader, layers);
      blobs := blobs + [blob];
      i := i + 1;
    }
    return Success(blobs);
  }

  method ReadAppendixHeader(reader: Reader) returns (r: Result<nat, GgsqError>)
    modifies reader
    ensures match AppendixHeaderAt(reader.view, old(reader.offset))
            case Success((count, o)) => r == Success(count) && reader.offset == o
            case Failure(e) => r == Failure(e)
  {
    var magic :- reader.Take(4);
    if magic != SCKP_MAGIC { return Failure(NoMagic); }
    var version :- reader.ReadU32();
    if version != 1 { return Failure(BadVersion); }
    var count :- reader.ReadU32();
    if count > MAX_CHECKPOINTS { return Failure(TooManyCheckpoints); }
    return Success(count);
  }

  method ReadCheckpointAppendix(f: bytes, start: nat, end: nat, layers: seq<int>)
    returns (r: Result<seq<CheckpointBlob>, GgsqError>)
    ensures r == AppendixAt(f, start, end, layers)
  {
    hide CheckpointsAt, AppendixHeaderAt;
    var reader := new Reader(f, start, end);
    var count :- ReadAppendixHeader(reader);
    var blobs :- ReadCheckpoints(reader, count, layers);
    if reader.offset != end { return Failure(AppendixEndDisagrees); }
    return Success(blobs);
  }
}
