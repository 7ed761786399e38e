/**
 * An attention section laid out field by field in the order the runtime writes it, with no help
 * from the readers, and the proof that both of them read back what was written.
 */
module GgsqWriter {
  import opened Wrappers
  import opened Bytes
  import opened GgsqReader
  import opened GgsqAgreement

  datatype CellSpec = CellSpec(pos: int, seqIds: seq<int>, ext: bytes)

  /** One layer's keys or values: `width` elements a cell, of one type. */
  datatype TensorSpec = TensorSpec(typeId: int, width: nat, payload: bytes)

  datatype SectionSpec = SectionSpec(cells: seq<CellSpec>, keys: seq<TensorSpec>, values: seq<TensorSpec>, vTrans: bool)

  predicate FitsI32(n: int) {
    -TWO_TO_THE_31 <= n < TWO_TO_THE_31
  }

  predicate FitsU32(n: int) {
    0 <= n < TWO_TO_THE_32
  }

  function I32Bytes(n: int): (b: bytes)
    requires FitsI32(n)
    ensures |b| == 4
  {
    WordSizes();
    ToLe(if n >= 0 then n else n + TWO_TO_THE_32, 4)
  }

  function U32Bytes(n: nat): (b: bytes)
    requires FitsU32(n)
    ensures |b| == 4
  {
    WordSizes();
    ToLe(n, 4)
  }

  function I32sBytes(ids: seq<int>): (b: bytes)
    requires forall i :: 0 <= i < |ids| ==> FitsI32(ids[i])
    ensures |b| == 4 * |ids|
  {
    if ids == [] then [] else I32Bytes(ids[0]) + I32sBytes(ids[1..])
  }

  predicate WritableCell(c: CellSpec, shape: AttentionShape) {
    && FitsI32(c.pos) && |c.seqIds| <= 64 && (forall i :: 0 <= i < |c.seqIds| ==> FitsI32(c.seqIds[i]))
    && |c.ext| == if shape.hasCellExt then shape.cellExtSize else 0
  }

  function CellBytes(c: CellSpec, shape: AttentionShape): bytes
    requires WritableCell(c, shape)
  {
    I32Bytes(c.pos) + (U32Bytes(|c.seqIds|) + (c.ext + I32sBytes(c.seqIds)))
  }

  function CellsBytes(cells: seq<CellSpec>, shape: AttentionShape): bytes
    requires forall i :: 0 <= i < |cells| ==> WritableCell(cells[i], shape)
  {
    if cells == [] then [] else CellBytes(cells[0], shape) + CellsBytes(cells[1..], shape)
  }

  /** Bytes of one row, or of one element when the values are stored transposed. */
  function Stride(t: TensorSpec): nat {
    if RowSize(t.typeId, t.width).Success? then RowSize(t.typeId, t.width).value else 0
  }

  function ElementSize(t: TensorSpec): nat {
    if TypeById(t.typeId).Some? then TypeById(t.typeId).value.perBlock / TypeById(t.typeId).value.block else 0
  }

  predicate WritableTensor(t: TensorSpec, cells: nat, transposed: bool) {
    && FitsI32(t.typeId) && TypeById(t.typeId).Some?
    && if transposed then FitsU32(ElementSize(t)) && FitsU32(t.width) && |t.payload| == t.width * cells * ElementSize(t)
       else RowSize(t.typeId, t.width).Success? && Stride(t) < TWO_TO_THE_64 && |t.payload| == cells * Stride(t)
  }

  function TensorBytes(t: TensorSpec, cells: nat, transposed: bool): bytes
    requires WritableTensor(t, cells, transposed)
  {
    WordSizes();
    if transposed then I32Bytes(t.typeId) + (U32Bytes(ElementSize(t)) + (U32Bytes(t.width) + t.payload))
    else I32Bytes(t.typeId) + (ToLe(Stride(t), 8) + t.payload)
  }

  predicate WritableTensors(tensors: seq<TensorSpec>, cells: nat, transposed: bool) {
    forall i :: 0 <= i < |tensors| ==> WritableTensor(tensors[i], cells, transposed)
  }

  function TensorsBytes(tensors: seq<TensorSpec>, cells: nat, transposed: bool): bytes
    requires WritableTensors(tensors, cells, transposed)
  {
    if tensors == [] then [] else TensorBytes(tensors[0], cells, transposed) + TensorsBytes(tensors[1..], cells, transposed)
  }

  predicate Writable(s: SectionSpec, shape: AttentionShape) {
    && FitsU32(|s.cells|) && (forall i :: 0 <= i < |s.cells| ==> WritableCell(s.cells[i], shape))
    && 1 <= |s.keys| == |s.values| <= 512
    && WritableTensors(s.keys, |s.cells|, false) && WritableTensors(s.values, |s.cells|, s.vTrans)
  }

  /** A section; with no cells it ends after its two counts. */
  function SectionBytes(s: SectionSpec, shape: AttentionShape): bytes
    requires Writable(s, shape)
  {
    U32Bytes(1) + (U32Bytes(|s.cells|) + (if s.cells == [] then [] else CellsBytes(s.cells, shape) + BodyBytes(s)))
  }

  function BodyBytes(s: SectionSpec): bytes
    requires |s.keys| <= 512 && WritableTensors(s.keys, |s.cells|, false) && WritableTensors(s.values, |s.cells|, s.vTrans)
  {
    U32Bytes(if s.vTrans then 1 else 0) + (U32Bytes(|s.keys|)
    + (TensorsBytes(s.keys, |s.cells|, false) + TensorsBytes(s.values, |s.cells|, s.vTrans)))
  }

  // What lies where in a file

  predicate Holds(f: bytes, off: nat, b: bytes) {
    off + |b| <= |f| && f[off..off + |b|] == b
  }

  lemma HoldsBoth(f: bytes, off: nat, a: bytes, b: bytes)
    requires Holds(f, off, a + b)
    ensures Holds(f, off, a) && Holds(f, off + |a|, b)
  {
    SliceOfSlice(f, off, off + |a + b|, 0, |a|);
    SliceOfSlice(f, off, off + |a + b|, |a|, |a| + |b|);
    assert (a + b)[0..|a|] == a && (a + b)[|a|..|a| + |b|] == b;
  }

  lemma HoldsU32(f: bytes, off: nat, end: nat, n: nat)
    requires FitsU32(n) && Holds(f, off, U32Bytes(n)) && off + 4 <= end
    ensures U32At(View(f, end), off) == Success((n, off + 4))
  {
    WordSizes();
  }

  lemma HoldsI32(f: bytes, off: nat, end: nat, n: int)
    requires FitsI32(n) && Holds(f, off, I32Bytes(n)) && off + 4 <= end
    ensures I32At(View(f, end), off) == Success((n, off + 4))
  {
    WordSizes();
  }

  lemma HoldsU64(f: bytes, off: nat, end: nat, n: nat)
    requires n < Pow256(8) && Holds(f, off, ToLe(n, 8)) && off + 8 <= end
    ensures U64At(View(f, end), off) == Success((n, off + 8))
  {
  }

  // Cells

  lemma {:induction false} CellIsRead(f: bytes, off: nat, end: nat, c: CellSpec, shape: AttentionShape)
    requires WritableCell(c, shape) && Holds(f, off, CellBytes(c, shape)) && off + |CellBytes(c, shape)| <= end
    ensures CellAt(View(f, end), off, shape) == Success((c.pos, off + |CellBytes(c, shape)|))
  {
    hide I32Bytes, U32Bytes, I32sBytes, Holds, I32At, U32At;
    var ids := I32sBytes(c.seqIds);
    HoldsBoth(f, off, I32Bytes(c.pos), U32Bytes(|c.seqIds|) + (c.ext + ids));
    HoldsBoth(f, off + 4, U32Bytes(|c.seqIds|), c.ext + ids);
    HoldsI32(f, off, end, c.pos);
    HoldsU32(f, off + 4, end, |c.seqIds|);
  }

  function Positions(cells: seq<CellSpec>): (p: seq<int>)
    ensures |p| == |cells| && forall i :: 0 <= i < |cells| ==> p[i] == cells[i].pos
  {
    seq(|cells|, i requires 0 <= i < |cells| => cells[i].pos)
  }

  lemma {:induction false} CellsAreRead(f: bytes, off: nat, end: nat, cells: seq<CellSpec>, shape: AttentionShape, acc: seq<int>)
    requires forall i :: 0 <= i < |cells| ==> WritableCell(cells[i], shape)
    requires Holds(f, off, CellsBytes(cells, shape)) && off + |CellsBytes(cells, shape)| <= end
    ensures CellsAt(View(f, end), off, |cells|, shape, acc) == Success((acc + Positions(cells), off + |CellsBytes(cells, shape)|))
    decreases |cells|
  {
    hide CellBytes, WritableCell, CellAt, Holds;
    if cells == [] {
      assert acc + Positions(cells) == acc;
    } else {
      HoldsBoth(f, off, CellBytes(cells[0], shape), CellsBytes(cells[1..], shape));
      CellIsRead(f, off, end, cells[0], shape);
      CellsAreRead(f, off + |CellBytes(cells[0], shape)|, end, cells[1..], shape, acc + [cells[0].pos]);
      assert acc + [cells[0].pos] + Positions(cells[1..]) == acc + Positions(cells);
    }
  }

  // Tensors

  /** The span a reader should report for a tensor whose header begins at `off`. */
  function SpanOf(t: TensorSpec, off: nat, layer: int, kind: Kind, cells: nat, transposed: bool): TensorSpan {
    if transposed then TensorSpan(layer, Value, t.typeId, ElementSize(t) * cells, t.width, off + 12, |t.payload|, true)
    else TensorSpan(layer, kind, t.typeId, Stride(t), t.width, off + 12, |t.payload|, false)
  }

  lemma {:induction false} RowIsRead(f: bytes, off: nat, end: nat, t: TensorSpec, layer: int, kind: Kind, cells: nat)
    requires WritableTensor(t, cells, false)
    requires Holds(f, off, TensorBytes(t, cells, false)) && off + |TensorBytes(t, cells, false)| <= end
    ensures RowSpanAt(View(f, end), off, layer, kind, cells)
         == Success((SpanOf(t, off, layer, kind, cells, false), off + |TensorBytes(t, cells, false)|))
    ensures |TensorBytes(t, cells, false)| == 12 + |t.payload|
  {
    hide I32Bytes, ToLe, Holds, I32At, U64At, RowSize, ElementsFromRowSize, TypeById;
    WordSizes();
    HoldsBoth(f, off, I32Bytes(t.typeId), ToLe(Stride(t), 8) + t.payload);
    HoldsBoth(f, off + 4, ToLe(Stride(t), 8), t.payload);
    HoldsI32(f, off, end, t.typeId);
    HoldsU64(f, off + 4, end, Stride(t));
    RowSizeInverse(t.typeId, t.width);
  }

  lemma {:induction false} TransposedIsRead(f: bytes, off: nat, end: nat, t: TensorSpec, layer: int, kind: Kind, cells: nat)
    requires WritableTensor(t, cells, true)
    requires Holds(f, off, TensorBytes(t, cells, true)) && off + |TensorBytes(t, cells, true)| <= end
    ensures TransposedSpanAt(View(f, end), off, layer, cells)
         == Success((SpanOf(t, off, layer, kind, cells, true), off + |TensorBytes(t, cells, true)|))
    ensures |TensorBytes(t, cells, true)| == 12 + |t.payload|
  {
    hide I32Bytes, U32Bytes, Holds, I32At, U32At, TypeById;
    HoldsBoth(f, off, I32Bytes(t.typeId), U32Bytes(ElementSize(t)) + (U32Bytes(t.width) + t.payload));
    HoldsBoth(f, off + 4, U32Bytes(ElementSize(t)), U32Bytes(t.width) + t.payload);
    HoldsBoth(f, off + 8, U32Bytes(t.width), t.payload);
    HoldsI32(f, off, end, t.typeId);
    HoldsU32(f, off + 4, end, ElementSize(t));
    HoldsU32(f, off + 8, end, t.width);
  }

  function SpansOf(tensors: seq<TensorSpec>, off: nat, layers: seq<int>, kind: Kind, cells: nat, transposed: bool): seq<TensorSpan>
    requires |layers| == |tensors|
  {
    if tensors == [] then [] else
    [SpanOf(tensors[0], off, layers[0], kind, cells, transposed)]
    + SpansOf(tensors[1..], off + 12 + |tensors[0].payload|, layers[1..], kind, cells, transposed)
  }

  lemma {:induction false} TensorsAreRead(
      f: bytes, off: nat, end: nat, tensors: seq<TensorSpec>, layers: seq<int>, kind: Kind, cells: nat, transposed: bool, acc: seq<TensorSpan>)
    requires |layers| == |tensors| && WritableTensors(tensors, cells, transposed)
    requires Holds(f, off, TensorsBytes(tensors, cells, transposed)) && off + |TensorsBytes(tensors, cells, transposed)| <= end
    ensures SpansAt(View(f, end), off, layers, kind, cells, transposed, acc)
         == Success((acc + SpansOf(tensors, off, layers, kind, cells, transposed), off + |TensorsBytes(tensors, cells, transposed)|))
    decreases |tensors|
  {
    hide TensorBytes, WritableTensor, RowSpanAt, TransposedSpanAt, SpanOf, Holds;
    if tensors == [] {
      assert acc + SpansOf(tensors, off, layers, kind, cells, transposed) == acc;
    } else {
      var t := tensors[0];
      HoldsBoth(f, off, TensorBytes(t, cells, transposed), TensorsBytes(tensors[1..], cells, transposed));
      if transposed {
        TransposedIsRead(f, off, end, t, layers[0], kind, cells);
      } else {
        RowIsRead(f, off, end, t, layers[0], kind, cells);
      }
      var span := SpanOf(t, off, layers[0], kind, cells, transposed);
      TensorsAreRead(f, off + 12 + |t.payload|, end, tensors[1..], layers[1..], kind, cells, transposed, acc + [span]);
      assert acc + [span] + SpansOf(tensors[1..], off + 12 + |t.payload|, layers[1..], kind, cells, transposed)
          == acc + SpansOf(tensors, off, layers, kind, cells, transposed);
    }
  }

  /** Each span lies where its tensor's bytes do: the payload comes back. */
  lemma {:induction false} PayloadsComeBack(
      f: bytes, off: nat, tensors: seq<TensorSpec>, layers: seq<int>, kind: Kind, cells: nat, transposed: bool, i: nat)
    requires |layers| == |tensors| && WritableTensors(tensors, cells, transposed) && i < |tensors|
    requires Holds(f, off, TensorsBytes(tensors, cells, transposed))
    ensures |SpansOf(tensors, off, layers, kind, cells, transposed)| == |tensors|
    ensures var span := SpansOf(tensors, off, layers, kind, cells, transposed)[i];
      span.layer == layers[i] && Holds(f, span.offset, tensors[i].payload) && span.nbytes == |tensors[i].payload|
    decreases |tensors|
  {
    hide Holds, I32Bytes, U32Bytes, ToLe, WritableTensor;
    var t := tensors[0];
    SpanCount(tensors, off, layers, kind, cells, transposed);
    HoldsBoth(f, off, TensorBytes(t, cells, transposed), TensorsBytes(tensors[1..], cells, transposed));
    HeaderAndPayload(f, off, t, cells, transposed);
    if i > 0 {
      PayloadsComeBack(f, off + 12 + |t.payload|, tensors[1..], layers[1..], kind, cells, transposed, i - 1);
    }
  }

  lemma {:induction false} SpanCount(tensors: seq<TensorSpec>, off: nat, layers: seq<int>, kind: Kind, cells: nat, transposed: bool)
    requires |layers| == |tensors|
    ensures |SpansOf(tensors, off, layers, kind, cells, transposed)| == |tensors|
  {
    if tensors != [] {
      SpanCount(tensors[1..], off + 12 + |tensors[0].payload|, layers[1..], kind, cells, transposed);
    }
  }

  lemma {:induction false} HeaderAndPayload(f: bytes, off: nat, t: TensorSpec, cells: nat, transposed: bool)
    requires WritableTensor(t, cells, transposed) && Holds(f, off, TensorBytes(t, cells, transposed))
    ensures |TensorBytes(t, cells, transposed)| == 12 + |t.payload| && Holds(f, off + 12, t.payload)
  {
    hide Holds, I32Bytes, U32Bytes, ToLe;
    WordSizes();
    if transposed {
      HoldsBoth(f, off, I32Bytes(t.typeId), U32Bytes(ElementSize(t)) + (U32Bytes(t.width) + t.payload));
      HoldsBoth(f, off + 4, U32Bytes(ElementSize(t)), U32Bytes(t.width) + t.payload);
      HoldsBoth(f, off + 8, U32Bytes(t.width), t.payload);
    } else {
      HoldsBoth(f, off, I32Bytes(t.typeId), ToLe(Stride(t), 8) + t.payload);
      HoldsBoth(f, off + 4, ToLe(Stride(t), 8), t.payload);
    }
  }

  // The whole section

  /** What reading a written section should give. */
  function Expected(s: SectionSpec, shape: AttentionShape, start: nat, layers: seq<int>): AttentionSection
    requires Writable(s, shape) && |layers| == |s.keys|
  {
    var last := start + |SectionBytes(s, shape)|;
    if s.cells == [] then AttentionSection(1, 0, false, 0, [], [], last) else
    var keysAt := start + 16 + |CellsBytes(s.cells, shape)|;
    var valuesAt := keysAt + |TensorsBytes(s.keys, |s.cells|, false)|;
    AttentionSection(1, |s.cells|, s.vTrans, |s.keys|, Positions(s.cells),
      SpansOf(s.keys, keysAt, layers, Key, |s.cells|, false) + SpansOf(s.values, valuesAt, layers, Value, |s.cells|, s.vTrans), last)
  }

  lemma {:induction false} BodyIsRead(f: bytes, off: nat, end: nat, s: SectionSpec, shape: AttentionShape, layers: seq<int>)
    requires Writable(s, shape) && LayerMap(|s.keys|, shape.layerIndices) == Success(layers) && |layers| == |s.keys|
    requires Holds(f, off, BodyBytes(s)) && off + |BodyBytes(s)| <= end
    ensures var valuesAt := off + 8 + |TensorsBytes(s.keys, |s.cells|, false)|;
      TensorsAt(View(f, end), off, |s.cells|, shape.layerIndices)
      == Success(Tensors(s.vTrans, |s.keys|,
           SpansOf(s.keys, off + 8, layers, Key, |s.cells|, false) + SpansOf(s.values, valuesAt, layers, Value, |s.cells|, s.vTrans),
           off + |BodyBytes(s)|))
  {
    hide U32Bytes, Holds, U32At, SpansAt, SpansOf, TensorsBytes, WritableTensors, LayerMap;
    var n := |s.cells|;
    var keys, values := TensorsBytes(s.keys, n, false), TensorsBytes(s.values, n, s.vTrans);
    var flag := if s.vTrans then 1 else 0;
    HoldsBoth(f, off, U32Bytes(flag), U32Bytes(|s.keys|) + (keys + values));
    HoldsBoth(f, off + 4, U32Bytes(|s.keys|), keys + values);
    HoldsBoth(f, off + 8, keys, values);
    HoldsU32(f, off, end, flag);
    HoldsU32(f, off + 4, end, |s.keys|);
    var keySpans := SpansOf(s.keys, off + 8, layers, Key, n, false);
    TensorsAreRead(f, off + 8, end, s.keys, layers, Key, n, false, []);
    TensorsAreRead(f, off + 8 + |keys|, end, s.values, layers, Value, n, s.vTrans, keySpans);
    assert [] + keySpans == keySpans;
  }

  /**
   * Round trip: whatever section is written, at any offset of any file and under any later bound,
   * the bounded reader returns its cells, its layers and its payloads, and stops where it ends.
   */
  lemma {:induction false} WrittenSectionIsRead(f: bytes, start: nat, end: nat, s: SectionSpec, shape: AttentionShape, layers: seq<int>)
    requires Writable(s, shape) && LayerMap(|s.keys|, shape.layerIndices) == Success(layers) && |layers| == |s.keys|
    requires Holds(f, start, SectionBytes(s, shape)) && start + |SectionBytes(s, shape)| <= end
    ensures AttentionAt(f, start, end, shape) == Success(Expected(s, shape, start, layers))
  {
    hide U32Bytes, Holds, U32At, CellsAt, TensorsAt, CellsBytes, BodyBytes, SpansOf, TensorsBytes, WritableTensors, WritableCell, LayerMap;
    var n := |s.cells|;
    var rest := if s.cells == [] then [] else CellsBytes(s.cells, shape) + BodyBytes(s);
    HoldsBoth(f, start, U32Bytes(1), U32Bytes(n) + rest);
    HoldsBoth(f, start + 4, U32Bytes(n), rest);
    HoldsU32(f, start, end, 1);
    HoldsU32(f, start + 4, end, n);
    if s.cells != [] {
      HoldsBoth(f, start + 8, CellsBytes(s.cells, shape), BodyBytes(s));
      CellsAreRead(f, start + 8, end, s.cells, shape, []);
      assert [] + Positions(s.cells) == Positions(s.cells);
      BodyIsRead(f, start + 8 + |CellsBytes(s.cells, shape)|, end, s, shape, layers);
    }
  }

  /** The second parser reads the same section out of the same bytes: one stream, or none when there are no cells. */
  lemma {:induction false} WrittenSectionIsParsed(s: SectionSpec, shape: AttentionShape, layers: seq<int>)
    requires Writable(s, shape) && LayerMap(|s.keys|, shape.layerIndices) == Success(layers) && |layers| == |s.keys|
    ensures var blob := SectionBytes(s, shape);
      var result := P.ParseSpec(blob, shape.hasCellExt, shape.cellExtSize);
      && result.Success? && |result.value.streams| == (if s.cells == [] then 0 else 1)
      && (s.cells != [] ==> SameSection(Expected(s, shape, 0, layers), result.value.streams[0], 0))
  {
    hide SectionBytes, Writable, LayerMap, P.ParseSpec, AttentionAt, SameSection, Expected;
    var blob := SectionBytes(s, shape);
    assert blob[0..0 + |blob|] == blob;
    WrittenSectionIsRead(blob, 0, |blob|, s, shape, layers);
    ExpectedEnds(s, shape, layers);
    ParsersAgree(blob, 0, blob, |blob|, shape, Expected(s, shape, 0, layers));
  }

  lemma {:induction false} ExpectedEnds(s: SectionSpec, shape: AttentionShape, layers: seq<int>)
    requires Writable(s, shape) && |layers| == |s.keys|
    ensures Expected(s, shape, 0, layers).endOffset == |SectionBytes(s, shape)|
    ensures Expected(s, shape, 0, layers).cellCount == |s.cells|
  {
    hide SectionBytes, Writable, SpansOf, TensorsBytes, CellsBytes;
  }
}
