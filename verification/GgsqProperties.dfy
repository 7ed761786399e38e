/** What the bounded reader's sections look like, and that the independent parser sees the same ones. */
module GgsqProperties {
  import opened Wrappers
  import opened Bytes
  import opened GgsqReader

  // ---------------------------------------------------------------------------
  // Tiling
  // ---------------------------------------------------------------------------

  /** Every payload is preceded by its own header: type and stride, or type, element size and width. */
  const TENSOR_HEADER := 12

  /** The spans, each behind its header, fill [from, to) back to back. */
  ghost predicate Tiled(spans: seq<TensorSpan>, from: nat, to: nat)
    decreases |spans|
  {
    if spans == [] then from == to else
    var last := spans[|spans| - 1];
    && last.offset >= TENSOR_HEADER
    && last.offset + last.nbytes == to
    && Tiled(spans[..|spans| - 1], from, last.offset - TENSOR_HEADER)
  }

  lemma TiledExtend(spans: seq<TensorSpan>, span: TensorSpan, from: nat, off: nat)
    requires Tiled(spans, from, off) && span.offset == off + TENSOR_HEADER
    ensures Tiled(spans + [span], from, span.offset + span.nbytes)
  {
    assert (spans + [span])[..|spans|] == spans;
  }

  /** Header after payload after header: nothing between two neighbours but the 12 bytes of a header. */
  lemma {:induction false} TiledNeighbours(spans: seq<TensorSpan>, from: nat, to: nat, i: nat)
    requires Tiled(spans, from, to) && i < |spans|
    ensures from + TENSOR_HEADER <= spans[i].offset && spans[i].offset + spans[i].nbytes <= to
    ensures spans[i].offset == TENSOR_HEADER + if i == 0 then from else spans[i - 1].offset + spans[i - 1].nbytes
    ensures i == |spans| - 1 ==> spans[i].offset + spans[i].nbytes == to
    decreases |spans|
  {
    var front := spans[..|spans| - 1];
    var last := spans[|spans| - 1];
    if front != [] {
      TiledNeighbours(front, from, last.offset - TENSOR_HEADER, if i < |front| then i else i - 1);
    }
  }

  lemma {:induction false} TiledOrdered(spans: seq<TensorSpan>, from: nat, to: nat, i: nat, j: nat)
    requires Tiled(spans, from, to) && i < j < |spans|
    ensures spans[i].offset + spans[i].nbytes + TENSOR_HEADER <= spans[j].offset
    decreases j
  {
    TiledNeighbours(spans, from, to, j);
    if i + 1 < j {
      TiledOrdered(spans, from, to, i, j - 1);
    }
  }

  /** A payload of one row per cell. */
  ghost predicate RowSized(span: TensorSpan, cells: nat) {
    span.nbytes == cells * span.rowSize
  }

  /** The bytes a transposed layout gives one element: blocks are not stored, so the division drops what is left over. */
  ghost function ElementSize(typeId: int): nat {
    match TypeById(typeId)
    case None => 0
    case Some(t) => t.perBlock / t.block
  }

  /** A payload of one column per element, of a known type. */
  ghost predicate ColumnSized(span: TensorSpan, cells: nat) {
    && TypeById(span.typeId).Some?
    && span.rowSize == ElementSize(span.typeId) * cells && span.nbytes == span.nElements * cells * ElementSize(span.typeId)
  }

  /** Where one span lies relative to its header, and which layer and kind it was recorded under. */
  lemma SpanPlacement(v: View, off: nat, layer: int, kind: Kind, cells: nat, transposed: bool)
    requires SpanAt(v, off, layer, kind, cells, transposed).Success?
    ensures
      var (span, o) := SpanAt(v, off, layer, kind, cells, transposed).value;
      && span.offset == off + TENSOR_HEADER && o == span.offset + span.nbytes <= v.end
      && span.layer == layer && span.kind == (if transposed then Value else kind)
      && span.transposed == transposed
      && Sized(span, cells, transposed)
  {
  }

  /** One span per layer, in layer order, all of one kind and of the size their layout gives. */
  ghost predicate ForLayers(spans: seq<TensorSpan>, layers: seq<int>, kind: Kind, cells: nat, transposed: bool) {
    && |spans| == |layers|
    && forall i :: 0 <= i < |spans| ==>
         && spans[i].layer == layers[i] && spans[i].kind == kind && spans[i].transposed == transposed
         && Sized(spans[i], cells, transposed)
  }

  ghost predicate Sized(span: TensorSpan, cells: nat, transposed: bool) {
    if transposed then ColumnSized(span, cells) else RowSized(span, cells)
  }

  lemma ForLayersCons(span: TensorSpan, spans: seq<TensorSpan>, layers: seq<int>, kind: Kind, cells: nat, transposed: bool)
    requires layers != [] && ForLayers(spans, layers[1..], kind, cells, transposed)
    requires span.layer == layers[0] && span.kind == kind && span.transposed == transposed && Sized(span, cells, transposed)
    ensures ForLayers([span] + spans, layers, kind, cells, transposed)
  {
  }

  /** The spans of a layer list continue the tiling in layer order. */
  lemma {:induction false} SpansPlacement(
      v: View, off: nat, layers: seq<int>, kind: Kind, cells: nat, transposed: bool, acc: seq<TensorSpan>, from: nat)
    requires transposed ==> kind == Value
    requires Tiled(acc, from, off)
    requires SpansAt(v, off, layers, kind, cells, transposed, acc).Success?
    ensures
      var (spans, o) := SpansAt(v, off, layers, kind, cells, transposed, acc).value;
      && Tiled(spans, from, o) && off <= o
      && acc <= spans && ForLayers(spans[|acc|..], layers, kind, cells, transposed)
    decreases |layers|
  {
    hide SpanAt, Sized;
    if layers != [] {
      SpanPlacement(v, off, layers[0], kind, cells, transposed);
      var (span, o) := SpanAt(v, off, layers[0], kind, cells, transposed).value;
      TiledExtend(acc, span, from, off);
      SpansPlacement(v, o, layers[1..], kind, cells, transposed, acc + [span], from);
      var (spans, _) := SpansAt(v, off, layers, kind, cells, transposed, acc).value;
      var added := spans[|acc| + 1..];
      ForLayersCons(span, added, layers, kind, cells, transposed);
      assert spans[|acc|..] == [span] + added;
    }
  }

  /** Two passes over one layer list, as both the attention and the recurrent section make. */
  lemma SectionSpans(v: View, off: nat, layers: seq<int>, first: Kind, second: Kind, cells: nat, transposed: bool)
    requires transposed ==> second == Value
    requires SpansAt(v, off, layers, first, cells, false, []).Success?
    requires
      var (keys, o) := SpansAt(v, off, layers, first, cells, false, []).value;
      SpansAt(v, o, layers, second, cells, transposed, keys).Success?
    ensures
      var (keys, o) := SpansAt(v, off, layers, first, cells, false, []).value;
      var (spans, end) := SpansAt(v, o, layers, second, cells, transposed, keys).value;
      && Tiled(spans, off, end) && |spans| == 2 * |layers|
      && ForLayers(spans[..|layers|], layers, first, cells, false)
      && ForLayers(spans[|layers|..], layers, second, cells, transposed)
  {
    assert Tiled([], off, off);
    hide SpansAt, Tiled, Sized;
    SpansPlacement(v, off, layers, first, cells, false, [], off);
    var (keys, o) := SpansAt(v, off, layers, first, cells, false, []).value;
    assert keys[0..] == keys;
    SpansPlacement(v, o, layers, second, cells, transposed, keys, off);
    var (spans, _) := SpansAt(v, o, layers, second, cells, transposed, keys).value;
    assert spans[..|layers|] == keys;
  }

  // ---------------------------------------------------------------------------
  // Cells
  // ---------------------------------------------------------------------------

  /** The sequence ids declared by n cells from `off`, each cell carrying `ext` extension bytes. */
  ghost function SeqIdTotal(f: bytes, off: nat, n: nat, ext: nat): nat
    decreases n
  {
    if n == 0 || off + 8 > |f| then 0 else
    var k := U32(f, off + 4);
    k + SeqIdTotal(f, off + 8 + ext + 4 * k, n - 1, ext)
  }

  ghost function ExtBytes(shape: AttentionShape): nat {
    if shape.hasCellExt && shape.cellExtSize > 0 then shape.cellExtSize else 0
  }

  lemma CellPlacement(v: View, off: nat, shape: AttentionShape)
    requires CellAt(v, off, shape).Success?
    ensures off + 8 <= |v.file| && (shape.hasCellExt ==> shape.cellExtSize >= 0)
    ensures CellAt(v, off, shape).value ==
      (I32(v.file, off), off + 8 + ExtBytes(shape) + 4 * U32(v.file, off + 4))
  {
  }

  lemma {:induction false} CellsGrow(v: View, off: nat, n: nat, shape: AttentionShape, acc: seq<int>)
    requires CellsAt(v, off, n, shape, acc).Success?
    ensures off <= CellsAt(v, off, n, shape, acc).value.1
    decreases n
  {
    hide CellAt;
    if n > 0 {
      CellPlacement(v, off, shape);
      var (pos, o) := CellAt(v, off, shape).value;
      CellsGrow(v, o, n - 1, shape, acc + [pos]);
    }
  }

  lemma {:induction false} CellsPlacement(v: View, off: nat, n: nat, shape: AttentionShape, acc: seq<int>)
    requires CellsAt(v, off, n, shape, acc).Success?
    ensures
      var (positions, o) := CellsAt(v, off, n, shape, acc).value;
      && o == off + (8 + ExtBytes(shape)) * n + 4 * SeqIdTotal(v.file, off, n, ExtBytes(shape))
      && |positions| == |acc| + n && positions[..|acc|] == acc
    decreases n
  {
    hide CellAt;
    if n > 0 {
      CellPlacement(v, off, shape);
      var (pos, o) := CellAt(v, off, shape).value;
      CellsPlacement(v, o, n - 1, shape, acc + [pos]);
      var (positions, _) := CellsAt(v, off, n, shape, acc).value;
      assert positions[..|acc|] == positions[..|acc| + 1][..|acc|];
    }
  }

  // ---------------------------------------------------------------------------
  // The attention section
  // ---------------------------------------------------------------------------

  /** Where the tensor data of an accepted nonempty section begins: two counts, the cells, and two more counts. */
  ghost function DataStart(f: bytes, start: nat, cells: nat, shape: AttentionShape): nat {
    start + 16 + (8 + ExtBytes(shape)) * cells + 4 * SeqIdTotal(f, start + 8, cells, ExtBytes(shape))
  }

  /** The steps an accepted nonempty section was read in. */
  lemma AttentionParts(f: bytes, start: nat, end: nat, shape: AttentionShape, section: AttentionSection)
    returns (layers: seq<int>, keys: seq<TensorSpan>, middle: nat)
    requires AttentionAt(f, start, end, shape) == Success(section) && section.cellCount > 0
    ensures section.nStream == 1 && start + 8 <= |f| && U32(f, start) == 1 && U32(f, start + 4) == section.cellCount
    ensures
      var data := DataStart(f, start, section.cellCount, shape);
      && CellsAt(View(f, end), start + 8, section.cellCount, shape, []) == Success((section.positions, data - 8))
      && data <= |f| && section.vTrans == (U32(f, data - 8) != 0) && section.nLayer == U32(f, data - 4)
      && LayerMap(section.nLayer, shape.layerIndices) == Success(layers)
      && SpansAt(View(f, end), data, layers, Key, section.cellCount, false, []) == Success((keys, middle))
      && SpansAt(View(f, end), middle, layers, Value, section.cellCount, section.vTrans, keys)
           == Success((section.spans, section.endOffset))
  {
    hide CellsAt, TensorsAt, AttentionAt, SpansAt, LayerMap, DataStart;
    var o, tensors := AttentionSteps(f, start, end, shape, section);
    CellsReach(f, start, end, shape, section.cellCount, section.positions, o);
    layers, keys, middle := TensorParts(View(f, end), o, section.cellCount, shape.layerIndices, tensors);
  }

  lemma {:induction false} AttentionSteps(f: bytes, start: nat, end: nat, shape: AttentionShape, section: AttentionSection)
    returns (o: nat, tensors: Tensors)
    requires AttentionAt(f, start, end, shape) == Success(section) && section.cellCount > 0
    ensures section.nStream == 1 && start + 8 <= |f| && U32(f, start) == 1 && U32(f, start + 4) == section.cellCount
    ensures CellsAt(View(f, end), start + 8, section.cellCount, shape, []) == Success((section.positions, o))
    ensures TensorsAt(View(f, end), o, section.cellCount, shape.layerIndices) == Success(tensors)
    ensures section == AttentionSection(1, section.cellCount, tensors.vTrans, tensors.nLayer, section.positions, tensors.spans, tensors.end)
  {
    hide CellsAt, TensorsAt, U32;
    var (positions, after) := CellsAt(View(f, end), start + 8, U32(f, start + 4), shape, []).value;
    o := after;
    assert CellsAt(View(f, end), start + 8, U32(f, start + 4), shape, []) == Success((positions, o));
    tensors := TensorsAt(View(f, end), o, U32(f, start + 4), shape.layerIndices).value;
  }

  /** The cells end where the next two counts begin. */
  lemma {:induction false} CellsReach(f: bytes, start: nat, end: nat, shape: AttentionShape, cells: nat, positions: seq<int>, o: nat)
    requires CellsAt(View(f, end), start + 8, cells, shape, []) == Success((positions, o))
    ensures o == DataStart(f, start, cells, shape) - 8
  {
    hide CellsAt;
    CellsPlacement(View(f, end), start + 8, cells, shape, []);
    assert CellsAt(View(f, end), start + 8, cells, shape, []).value == (positions, o);
  }

  lemma TensorParts(v: View, off: nat, cells: nat, layerIndices: Option<seq<int>>, tensors: Tensors)
    returns (layers: seq<int>, keys: seq<TensorSpan>, middle: nat)
    requires TensorsAt(v, off, cells, layerIndices) == Success(tensors)
    ensures off + 8 <= |v.file| && tensors.vTrans == (U32(v.file, off) != 0) && tensors.nLayer == U32(v.file, off + 4)
    ensures LayerMap(tensors.nLayer, layerIndices) == Success(layers)
    ensures SpansAt(v, off + 8, layers, Key, cells, false, []) == Success((keys, middle))
    ensures SpansAt(v, middle, layers, Value, cells, tensors.vTrans, keys) == Success((tensors.spans, tensors.end))
  {
    hide SpansAt, LayerMap;
    layers := LayerMap(tensors.nLayer, layerIndices).value;
    var (first, second) := SpansAt(v, off + 8, layers, Key, cells, false, []).value;
    keys, middle := first, second;
    var (spans, end) := SpansAt(v, middle, layers, Value, cells, tensors.vTrans, keys).value;
    assert (spans, end) == (tensors.spans, tensors.end);
  }

  lemma AttentionLayout(f: bytes, start: nat, end: nat, shape: AttentionShape)
    requires AttentionAt(f, start, end, shape).Success?
    ensures
      var section := AttentionAt(f, start, end, shape).value;
      if section.cellCount == 0 then section.spans == [] && section.endOffset == start + 8 else
      && LayerMap(section.nLayer, shape.layerIndices).Success?
      && |section.positions| == section.cellCount
      && Tiled(section.spans, DataStart(f, start, section.cellCount, shape), section.endOffset)
      && var layers := LayerMap(section.nLayer, shape.layerIndices).value;
      && |section.spans| == 2 * |layers|
      && ForLayers(section.spans[..|layers|], layers, Key, section.cellCount, false)
      && ForLayers(section.spans[|layers|..], layers, Value, section.cellCount, section.vTrans)
  {
    var section := AttentionAt(f, start, end, shape).value;
    if section.cellCount > 0 {
      hide AttentionAt, TensorsAt, CellsAt, SpansAt, Tiled, LayerMap, Sized;
      var v := View(f, end);
      var layers, keys, middle := AttentionParts(f, start, end, shape, section);
      CellsPlacement(v, start + 8, section.cellCount, shape, []);
      SectionSpans(v, DataStart(f, start, section.cellCount, shape), layers, Key, Value, section.cellCount, section.vTrans);
    }
  }

  lemma LayerOf(spans: seq<TensorSpan>, layers: seq<int>, cells: nat, transposed: bool, i: nat)
    requires |spans| == 2 * |layers| && i < |spans|
    requires ForLayers(spans[..|layers|], layers, Key, cells, false) && ForLayers(spans[|layers|..], layers, Value, cells, transposed)
    ensures i < |layers| ==> spans[i].layer == layers[i] && spans[i].kind == Key
    ensures i >= |layers| ==> spans[i].layer == layers[i - |layers|] && spans[i].kind == Value
  {
    if i < |layers| {
      assert spans[i] == spans[..|layers|][i];
    } else {
      assert spans[i] == spans[|layers|..][i - |layers|];
    }
  }

  ghost predicate Covers(span: TensorSpan, layer: int, kind: Kind) {
    span.layer == layer && span.kind == kind
  }

  /** An accepted section never lets two payloads share a byte, and holds each layer's keys and values exactly once. */
  lemma AttentionTiling(f: bytes, start: nat, end: nat, shape: AttentionShape, i: nat, j: nat)
    requires AttentionAt(f, start, end, shape).Success?
    requires i < j < |AttentionAt(f, start, end, shape).value.spans|
    ensures
      var spans := AttentionAt(f, start, end, shape).value.spans;
      && spans[i].offset + spans[i].nbytes + TENSOR_HEADER <= spans[j].offset
      && (j == i + 1 ==> spans[i].offset + spans[i].nbytes + TENSOR_HEADER == spans[j].offset)
      && spans[j].offset + spans[j].nbytes <= AttentionAt(f, start, end, shape).value.endOffset
      && (spans[i].layer, spans[i].kind) != (spans[j].layer, spans[j].kind)
  {
    hide AttentionAt, Tiled, LayerMap, CellsAt, SpansAt;
    AttentionLayout(f, start, end, shape);
    var section := AttentionAt(f, start, end, shape).value;
    var from := DataStart(f, start, section.cellCount, shape);
    TiledOrdered(section.spans, from, section.endOffset, i, j);
    TiledNeighbours(section.spans, from, section.endOffset, j);
    LayersDistinct(section.nLayer, shape.layerIndices);
    var layers := LayerMap(section.nLayer, shape.layerIndices).value;
    LayerOf(section.spans, layers, section.cellCount, section.vTrans, i);
    LayerOf(section.spans, layers, section.cellCount, section.vTrans, j);
  }

  lemma LayersDistinct(n: nat, layerIndices: Option<seq<int>>)
    requires LayerMap(n, layerIndices).Success?
    ensures Distinct(LayerMap(n, layerIndices).value) && |LayerMap(n, layerIndices).value| == n
  {
  }

  /** Every layer of the map has its keys and its values in the section. */
  lemma {:induction false} AttentionComplete(f: bytes, start: nat, end: nat, shape: AttentionShape, layer: int, kind: Kind)
    requires AttentionAt(f, start, end, shape).Success? && AttentionAt(f, start, end, shape).value.cellCount > 0
    ensures
      var section := AttentionAt(f, start, end, shape).value;
      (exists i :: 0 <= i < |section.spans| && Covers(section.spans[i], layer, kind)) <==>
      LayerMap(section.nLayer, shape.layerIndices).Success? && layer in LayerMap(section.nLayer, shape.layerIndices).value
        && (kind == Key || kind == Value)
  {
    hide AttentionAt, Tiled, LayerMap;
    AttentionLayout(f, start, end, shape);
    var section := AttentionAt(f, start, end, shape).value;
    var layers := LayerMap(section.nLayer, shape.layerIndices).value;
    if layer in layers && (kind == Key || kind == Value) {
      var k :| 0 <= k < |layers| && layers[k] == layer;
      var i := if kind == Key then k else |layers| + k;
      LayerOf(section.spans, layers, section.cellCount, section.vTrans, i);
      assert Covers(section.spans[i], layer, kind);
    }
    if i :| 0 <= i < |section.spans| && Covers(section.spans[i], layer, kind) {
      LayerOf(section.spans, layers, section.cellCount, section.vTrans, i);
    }
  }

  // ---------------------------------------------------------------------------
  // Materialising
  // ---------------------------------------------------------------------------

  ghost function KeyOf(span: TensorSpan): (int, Kind) {
    (span.layer, span.kind)
  }

  ghost predicate DistinctKeys(spans: seq<TensorSpan>) {
    forall i, j :: 0 <= i < j < |spans| ==> KeyOf(spans[i]) != KeyOf(spans[j])
  }

  ghost predicate NewKeys<T>(spans: seq<TensorSpan>, out: map<(int, Kind), T>) {
    forall i :: 0 <= i < |spans| ==> KeyOf(spans[i]) !in out
  }

  /** What its layer's geometry makes of a span: keys by the head dimension, values by the value head dimension. */
  ghost predicate DecodesTo<T>(span: TensorSpan, layout: map<int, LayerHeads>, decode: SpanDecoder<T>, answer: Result<T, GgsqError>) {
    && span.layer in layout
    && (span.kind == Key ==> decode(span, layout[span.layer].nKvHead, layout[span.layer].headDim) == answer)
    && (span.kind == Value ==> decode(span, layout[span.layer].nKvHead, layout[span.layer].valueHeadDim) == answer)
    && (span.kind == Key || span.kind == Value)
  }

  ghost predicate Decodes<T>(span: TensorSpan, layout: map<int, LayerHeads>, decode: SpanDecoder<T>) {
    && span.layer in layout
    && (span.kind == Key ==> decode(span, layout[span.layer].nKvHead, layout[span.layer].headDim).Success?)
    && (span.kind == Value ==> decode(span, layout[span.layer].nKvHead, layout[span.layer].valueHeadDim).Success?)
    && (span.kind == Key || span.kind == Value)
  }

  /** Why a span is refused. */
  ghost predicate RefusedWith<T>(span: TensorSpan, layout: map<int, LayerHeads>, decode: SpanDecoder<T>, error: GgsqError) {
    || (span.layer !in layout && error == UnknownLayer)
    || (span.layer in layout && span.kind != Key && span.kind != Value && error == NotAttention)
    || DecodesTo(span, layout, decode, Failure(error))
  }

  ghost predicate HasEntry<T>(span: TensorSpan, layout: map<int, LayerHeads>, decode: SpanDecoder<T>, out: map<(int, Kind), T>) {
    KeyOf(span) in out && DecodesTo(span, layout, decode, Success(out[KeyOf(span)]))
  }

  lemma SpanExactly<T>(span: TensorSpan, layout: map<int, LayerHeads>, decode: SpanDecoder<T>)
    ensures var r := MaterialiseSpan(span, layout, decode);
      && (r.Success? <==> Decodes(span, layout, decode))
      && (r.Success? ==> DecodesTo(span, layout, decode, r))
      && (r.Failure? ==> RefusedWith(span, layout, decode, r.error))
  {
  }

  /** The span at which materialising stops, and the refusal it stops with. */
  ghost predicate FirstRefused<T>(
      spans: seq<TensorSpan>, layout: map<int, LayerHeads>, decode: SpanDecoder<T>, i: nat, error: GgsqError)
  {
    && i < |spans|
    && (forall j :: 0 <= j < i ==> Decodes(spans[j], layout, decode))
    && !Decodes(spans[i], layout, decode)
    && RefusedWith(spans[i], layout, decode, error)
  }

  /** A section materialises if and only if its layout describes every span and each decodes; otherwise the first that does not decides the refusal. */
  lemma {:induction false} MaterialisesExactly<T>(
      spans: seq<TensorSpan>, layout: map<int, LayerHeads>, decode: SpanDecoder<T>, out: map<(int, Kind), T>)
    ensures var r := Materialised(spans, layout, decode, out);
      && (r.Success? <==> forall i :: 0 <= i < |spans| ==> Decodes(spans[i], layout, decode))
      && (r.Failure? ==> exists i :: FirstRefused(spans, layout, decode, i, r.error))
    decreases |spans|
  {
    hide MaterialiseSpan, RefusedWith, Decodes;
    if spans != [] {
      SpanExactly(spans[0], layout, decode);
      var first := MaterialiseSpan(spans[0], layout, decode);
      if first.Failure? {
        assert FirstRefused(spans, layout, decode, 0, first.error);
      } else {
        var out' := out[(spans[0].layer, spans[0].kind) := first.value];
        var rest := spans[1..];
        MaterialisesExactly(rest, layout, decode, out');
        var r := Materialised(rest, layout, decode, out');
        assert r == Materialised(spans, layout, decode, out);
        assert forall i :: 0 <= i < |rest| ==> rest[i] == spans[i + 1];
        if r.Failure? {
          var i: nat :| FirstRefused(rest, layout, decode, i, r.error);
          assert forall j :: 0 < j <= i ==> spans[j] == rest[j - 1];
          assert FirstRefused(spans, layout, decode, i + 1, r.error);
          assert !Decodes(spans[i + 1], layout, decode);
        } else {
          assert forall i :: 0 < i < |spans| ==> spans[i] == rest[i - 1];
        }
      }
    }
  }

  lemma NewTail<T>(spans: seq<TensorSpan>, out: map<(int, Kind), T>, value: T)
    requires DistinctKeys(spans) && spans != [] && NewKeys(spans, out)
    ensures DistinctKeys(spans[1..]) && NewKeys(spans[1..], out[KeyOf(spans[0]) := value])
    ensures |out[KeyOf(spans[0]) := value]| == |out| + 1
  {
    assert out[KeyOf(spans[0]) := value].Keys == out.Keys + {KeyOf(spans[0])};
  }

  lemma {:induction false} MaterialisedEntries<T>(
      spans: seq<TensorSpan>, layout: map<int, LayerHeads>, decode: SpanDecoder<T>, out: map<(int, Kind), T>)
    requires DistinctKeys(spans) && NewKeys(spans, out)
    requires Materialised(spans, layout, decode, out).Success?
    ensures
      var result := Materialised(spans, layout, decode, out).value;
      && |result| == |out| + |spans|
      && (forall key :: key in out ==> key in result && result[key] == out[key])
      && forall i :: 0 <= i < |spans| ==> HasEntry(spans[i], layout, decode, result)
    decreases |spans|
  {
    hide MaterialiseSpan, DistinctKeys, NewKeys;
    if spans != [] {
      var value := MaterialiseSpan(spans[0], layout, decode).value;
      var out' := out[KeyOf(spans[0]) := value];
      NewTail(spans, out, value);
      MaterialisedEntries(spans[1..], layout, decode, out');
      var result := Materialised(spans, layout, decode, out).value;
      assert KeyOf(spans[0]) in out';
      SpanExactly(spans[0], layout, decode);
      assert HasEntry(spans[0], layout, decode, result);
      forall i | 0 <= i < |spans|
        ensures HasEntry(spans[i], layout, decode, result)
      {
        if i > 0 {
          assert spans[i] == spans[1..][i - 1];
        }
      }
    }
  }

  /** Materialising an accepted section loses nothing: one entry per span, each from its own payload. */
  lemma {:induction false} MaterialiseKeepsEverySpan<T>(
      f: bytes, start: nat, end: nat, shape: AttentionShape, layout: map<int, LayerHeads>, decode: SpanDecoder<T>)
    requires AttentionAt(f, start, end, shape).Success?
    requires Materialised(AttentionAt(f, start, end, shape).value.spans, layout, decode, map[]).Success?
    ensures
      var spans := AttentionAt(f, start, end, shape).value.spans;
      var out := Materialised(spans, layout, decode, map[]).value;
      && |out| == |spans|
      && forall i :: 0 <= i < |spans| ==>
           && (spans[i].layer, spans[i].kind) in out
           && spans[i].layer in layout
           && var heads, value := layout[spans[i].layer], out[(spans[i].layer, spans[i].kind)];
              && (spans[i].kind == Key ==> decode(spans[i], heads.nKvHead, heads.headDim) == Success(value))
              && (spans[i].kind == Value ==> decode(spans[i], heads.nKvHead, heads.valueHeadDim) == Success(value))
              && (spans[i].kind == Key || spans[i].kind == Value)
  {
    var spans := AttentionAt(f, start, end, shape).value.spans;
    forall i, j | 0 <= i < j < |spans| ensures (spans[i].layer, spans[i].kind) != (spans[j].layer, spans[j].kind) {
      AttentionTiling(f, start, end, shape, i, j);
    }
    hide AttentionAt;
    MaterialisedEntries(spans, layout, decode, map[]);
    assert forall i :: 0 <= i < |spans| ==> HasEntry(spans[i], layout, decode, Materialised(spans, layout, decode, map[]).value);
  }

  // ---------------------------------------------------------------------------
  // The recurrent section
  // ---------------------------------------------------------------------------

  lemma RecurrentCellPlacement(v: View, off: nat, singleSequence: bool)
    requires RecurrentCellAt(v, off, singleSequence).Success?
    ensures off + 8 <= |v.file| && (singleSequence ==> U32(v.file, off + 4) == 0)
    ensures RecurrentCellAt(v, off, singleSequence).value == (I32(v.file, off), off + 8 + 4 * U32(v.file, off + 4))
  {
  }

  lemma {:induction false} RecurrentCellsPlacement(v: View, off: nat, n: nat, singleSequence: bool, acc: seq<int>)
    requires RecurrentCellsAt(v, off, n, singleSequence, acc).Success?
    ensures
      var (positions, o) := RecurrentCellsAt(v, off, n, singleSequence, acc).value;
      && o == off + 8 * n + 4 * SeqIdTotal(v.file, off, n, 0) && |positions| == |acc| + n
      && (singleSequence ==> SeqIdTotal(v.file, off, n, 0) == 0)
    decreases n
  {
    hide RecurrentCellAt;
    if n > 0 {
      RecurrentCellPlacement(v, off, singleSequence);
      var (pos, o) := RecurrentCellAt(v, off, singleSequence).value;
      RecurrentCellsPlacement(v, o, n - 1, singleSequence, acc + [pos]);
    }
  }

  /** A recurrent section: one count, the cells, two counts, then the R and S spans back to back. A cell is 8 bytes and its
      sequence ids; a save of one sequence writes none. */
  lemma {:induction false} RecurrentLayout(f: bytes, start: nat, end: nat, layers: seq<int>, singleSequence: bool, section: RecurrentSection)
    requires RecurrentAt(f, start, end, layers, singleSequence) == Success(section)
    ensures singleSequence ==> SeqIdTotal(f, start + 4, section.cellCount, 0) == 0
    ensures section.cellCount == 0 ==> section.spans == [] && section.endOffset == start + 4
    ensures section.cellCount > 0 ==>
      var ids := SeqIdTotal(f, start + 4, section.cellCount, 0);
      && |section.positions| == section.cellCount
      && Tiled(section.spans, start + 12 + 8 * section.cellCount + 4 * ids, section.endOffset)
      && |section.spans| == 2 * |layers|
      && ForLayers(section.spans[..|layers|], layers, ConvState, section.cellCount, false)
      && ForLayers(section.spans[|layers|..], layers, SsmState, section.cellCount, false)
  {
    hide RecurrentCellsAt, SpansAt, Tiled, RowSized, ForLayers;
    if section.cellCount > 0 {
      var v := View(f, end);
      RecurrentCellsPlacement(v, start + 4, section.cellCount, singleSequence, []);
      var ids := SeqIdTotal(f, start + 4, section.cellCount, 0);
      SectionSpans(v, start + 12 + 8 * section.cellCount + 4 * ids, layers, ConvState, SsmState, section.cellCount, false);
    }
  }
}
