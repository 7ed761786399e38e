/** The derived sizes are the sizes: what the readers consume, section by section and for whole files, against what the
    size laws predict. */
module SizeLaw {
  import opened Wrappers
  import opened Sequences
  import opened Bytes
  import opened GgsqReader
  import opened GgsqProperties
  import E = Envelope
  import S = Sizing

  // ---------------------------------------------------------------------------
  // What a run of spans occupies
  // ---------------------------------------------------------------------------

  ghost function SpanBytes(spans: seq<TensorSpan>): nat {
    if spans == [] then 0 else TENSOR_HEADER + spans[0].nbytes + SpanBytes(spans[1..])
  }

  lemma {:induction false} SpanBytesJoin(a: seq<TensorSpan>, b: seq<TensorSpan>)
    ensures SpanBytes(a + b) == SpanBytes(a) + SpanBytes(b)
    decreases |a|
  {
    if a == [] {
      assert a + b == b;
    } else {
      assert (a + b)[1..] == a[1..] + b;
      SpanBytesJoin(a[1..], b);
    }
  }

  lemma {:induction false} TiledTotal(spans: seq<TensorSpan>, from: nat, to: nat)
    requires Tiled(spans, from, to)
    ensures to == from + SpanBytes(spans)
    decreases |spans|
  {
    if spans != [] {
      var front, last := spans[..|spans| - 1], spans[|spans| - 1];
      TiledTotal(front, from, last.offset - TENSOR_HEADER);
      assert spans == front + [last];
      SpanBytesJoin(front, [last]);
    }
  }

  // ---------------------------------------------------------------------------
  // Attention sections
  // ---------------------------------------------------------------------------

  /** A layer's values: rows of this cache type, or columns of it in a transposed section. */
  ghost predicate ValueMatches(value: TensorSpan, layer: S.LayerKV, kvType: string)
    requires layer.Valid()
  {
    if value.transposed
    then TypeById(value.typeId).Some? && TypeById(value.typeId).value.name == kvType && value.nElements == layer.ValueElements()
    else S.RowSize(kvType, layer.ValueElements()) == Success(value.rowSize)
  }

  /** The rows in a section are the rows of these layers under this cache type, keys then values. */
  ghost predicate RowsMatch(keys: seq<TensorSpan>, values: seq<TensorSpan>, layers: seq<S.LayerKV>, kvType: string) {
    && |keys| == |values| == |layers| && S.AllValid(layers)
    && (forall i :: 0 <= i < |keys| ==> S.RowSize(kvType, layers[i].KeyElements()) == Success(keys[i].rowSize))
    && (forall i :: 0 <= i < |values| ==> ValueMatches(values[i], layers[i], kvType))
  }

  ghost predicate AllSized(spans: seq<TensorSpan>, cells: nat, transposed: bool) {
    forall i :: 0 <= i < |spans| ==> spans[i].transposed == transposed && Sized(spans[i], cells, transposed)
  }

  /** The law sizes the values of every layer: their width is whole blocks. */
  ghost predicate ValuesSized(layers: seq<S.LayerKV>, kvType: string)
    requires S.AllValid(layers)
  {
    forall i :: 0 <= i < |layers| ==> S.RowSize(kvType, layers[i].ValueElements()).Success?
  }

  /** What columns take less than rows: an element's share of a block, cut to whole bytes, leaves this much of each block out. */
  ghost function BytesLost(kvType: string): nat {
    match S.TypeNamed(kvType, S.TYPE_IDS)
    case None => 0
    case Some(t) => if t.block == 0 then 0 else t.perBlock % t.block
  }

  ghost function BlocksIn(layer: S.LayerKV, kvType: string): nat
    requires layer.Valid()
  {
    match S.TypeNamed(kvType, S.TYPE_IDS)
    case None => 0
    case Some(t) => if t.block == 0 then 0 else layer.ValueElements() / t.block
  }

  ghost function Lost(layer: S.LayerKV, kvType: string, cells: nat): nat
    requires layer.Valid()
  {
    cells * (BlocksIn(layer, kvType) * BytesLost(kvType))
  }

  ghost function Shortfall(layers: seq<S.LayerKV>, kvType: string, cells: nat): nat
    requires S.AllValid(layers)
  {
    if layers == [] then 0 else Lost(layers[0], kvType, cells) + Shortfall(layers[1..], kvType, cells)
  }

  lemma {:induction false} LayersOccupy(
      keys: seq<TensorSpan>, values: seq<TensorSpan>, layers: seq<S.LayerKV>, kvType: string, cells: nat, transposed: bool, total: nat)
    requires RowsMatch(keys, values, layers, kvType) && AllSized(keys, cells, false) && AllSized(values, cells, transposed)
    ensures S.LayersBytes(layers, cells, kvType, total).Success? <==> ValuesSized(layers, kvType)
    ensures ValuesSized(layers, kvType) ==>
      S.LayersBytes(layers, cells, kvType, total).value
      == total + SpanBytes(keys) + SpanBytes(values) + if transposed then Shortfall(layers, kvType, cells) else 0
    decreases |layers|
  {
    hide S.RowSize, Sized, Lost, ValueMatches, ValuesSized;
    if layers != [] {
      LayerOccupies(keys[0], values[0], layers[0], kvType, cells);
      ValuesSizedCons(layers, kvType);
      if S.LayerBytes(layers[0], cells, kvType).Success? {
        LayersOccupy(keys[1..], values[1..], layers[1..], kvType, cells, transposed, total + S.LayerBytes(layers[0], cells, kvType).value);
      }
    } else {
      NothingToSize(kvType);
    }
  }

  lemma NothingToSize(kvType: string)
    ensures ValuesSized([], kvType)
  {
  }

  lemma ValuesSizedCons(layers: seq<S.LayerKV>, kvType: string)
    requires S.AllValid(layers) && layers != []
    ensures ValuesSized(layers, kvType) <==> S.RowSize(kvType, layers[0].ValueElements()).Success? && ValuesSized(layers[1..], kvType)
  {
    hide S.RowSize;
    assert layers == [layers[0]] + layers[1..];
  }

  lemma {:induction false} LayerOccupies(key: TensorSpan, value: TensorSpan, layer: S.LayerKV, kvType: string, cells: nat)
    requires Sized(key, cells, false) && Sized(value, cells, value.transposed) && layer.Valid()
    requires S.RowSize(kvType, layer.KeyElements()) == Success(key.rowSize) && ValueMatches(value, layer, kvType)
    ensures S.LayerBytes(layer, cells, kvType).Success? <==> S.RowSize(kvType, layer.ValueElements()).Success?
    ensures S.LayerBytes(layer, cells, kvType).Success? ==>
      S.LayerBytes(layer, cells, kvType).value
      == 2 * TENSOR_HEADER + key.nbytes + value.nbytes + if value.transposed then Lost(layer, kvType, cells) else 0
  {
    hide S.RowSize, Lost;
    if S.RowSize(kvType, layer.ValueElements()).Success? {
      var row := S.RowSize(kvType, layer.ValueElements()).value;
      assert cells * (key.rowSize + row) == key.nbytes + cells * row;
      if value.transposed {
        ColumnsAgainstRows(value, layer, kvType, cells);
      }
    }
  }

  lemma ColumnsAgainstRows(value: TensorSpan, layer: S.LayerKV, kvType: string, cells: nat)
    requires layer.Valid() && value.transposed && ColumnSized(value, cells) && ValueMatches(value, layer, kvType)
    requires S.RowSize(kvType, layer.ValueElements()).Success?
    ensures cells * S.RowSize(kvType, layer.ValueElements()).value == value.nbytes + Lost(layer, kvType, cells)
  {
    hide TypeById, S.TypeNamed;
    TypeOf(value.typeId, kvType);
    var t := TypeById(value.typeId).value;
    BlockShares(layer.ValueElements() / t.block, t.block, t.perBlock, cells);
  }

  lemma TypeOf(id: int, name: string)
    requires TypeById(id).Some? && TypeById(id).value.name == name
    ensures S.TypeNamed(name, S.TYPE_IDS) == TypeById(id)
  {
    S.NamesDistinct(id, 0);
    assert S.TYPE_IDS[0..] == S.TYPE_IDS;
  }

  lemma BlockShares(blocks: nat, block: nat, perBlock: nat, cells: nat)
    requires block > 0
    ensures cells * (blocks * perBlock) == blocks * block * cells * (perBlock / block) + cells * (blocks * (perBlock % block))
  {
    var q, r := perBlock / block, perBlock % block;
    assert perBlock == block * q + r;
    assert blocks * perBlock == blocks * (block * q) + blocks * r;
    assert blocks * (block * q) == blocks * block * q;
    assert cells * (blocks * block * q) == blocks * block * cells * q;
  }

  ghost function KeySpans(section: AttentionSection): seq<TensorSpan> {
    section.spans[..Min(section.nLayer, |section.spans|)]
  }

  ghost function ValueSpans(section: AttentionSection): seq<TensorSpan> {
    section.spans[Min(section.nLayer, |section.spans|)..]
  }

  /** The section carries these layers: keys of one row per cell, and values of one row per cell or one column per element. */
  ghost predicate Carries(section: AttentionSection, layers: seq<S.LayerKV>, kvType: string) {
    S.AllValid(layers) && (section.cellCount > 0 ==> RowsMatch(KeySpans(section), ValueSpans(section), layers, kvType))
  }

  /** The law has a size for the section. */
  ghost predicate IsSized(section: AttentionSection, layers: seq<S.LayerKV>, kvType: string)
    requires S.AllValid(layers)
  {
    section.cellCount == 0 || ValuesSized(layers, kvType)
  }

  /** What a transposed section takes less than the law counts. */
  ghost function Missing(section: AttentionSection, layers: seq<S.LayerKV>, kvType: string): nat
    requires S.AllValid(layers)
  {
    if section.cellCount == 0 || !section.vTrans then 0 else Shortfall(layers, kvType, section.cellCount)
  }

  predicate Unblocked(kvType: string) {
    var t := S.TypeNamed(kvType, S.TYPE_IDS);
    t.Some? && t.value.block == 1
  }

  /** The section has as many bytes as the law counts for its tensors: no cells, rows, no layers, or a type without blocks. */
  ghost predicate Full(section: AttentionSection, layers: seq<S.LayerKV>, kvType: string) {
    section.cellCount == 0 || !section.vTrans || layers == [] || Unblocked(kvType)
  }

  lemma {:induction false} NamedIsListed(name: string, ids: seq<int>)
    ensures var t := S.TypeNamed(name, ids); t.Some? ==> exists id :: id in ids && TypeById(id) == t
  {
    hide TypeById;
    if ids != [] {
      NamedIsListed(name, ids[1..]);
    }
  }

  /** A block of one element loses nothing, and every other type in the table loses something. */
  lemma BlocksLose(kvType: string)
    requires S.TypeNamed(kvType, S.TYPE_IDS).Some?
    ensures BytesLost(kvType) == 0 <==> Unblocked(kvType)
  {
    hide S.TypeNamed;
    NamedIsListed(kvType, S.TYPE_IDS);
  }

  lemma {:induction false} ShortfallExactly(layers: seq<S.LayerKV>, kvType: string, cells: nat)
    requires S.AllValid(layers) && layers != [] && ValuesSized(layers, kvType) && cells > 0
    ensures Shortfall(layers, kvType, cells) == 0 <==> Unblocked(kvType)
    decreases |layers|
  {
    hide ValuesSized, S.TypeNamed, Unblocked, S.RowSize;
    ValuesSizedCons(layers, kvType);
    LostExactly(layers[0], kvType, cells);
    if |layers| > 1 {
      ShortfallExactly(layers[1..], kvType, cells);
    } else {
      assert Shortfall(layers[1..], kvType, cells) == 0;
    }
  }

  lemma LostExactly(layer: S.LayerKV, kvType: string, cells: nat)
    requires layer.Valid() && S.RowSize(kvType, layer.ValueElements()).Success? && cells > 0
    ensures Lost(layer, kvType, cells) == 0 <==> Unblocked(kvType)
  {
    hide S.TypeNamed, Unblocked;
    BlocksLose(kvType);
    var t := S.TypeNamed(kvType, S.TYPE_IDS).value;
    var w := layer.ValueElements();
    assert w == t.block * (w / t.block) + w % t.block;
    var blocks, lost := BlocksIn(layer, kvType), BytesLost(kvType);
    assert blocks > 0;
    ProductZero(blocks, lost);
    ProductZero(cells, blocks * lost);
  }

  /** Two bytes of each block of q8_0 and all eighteen of q4_0, whose element size comes out as none at all. */
  lemma LostByType(layer: S.LayerKV, cells: nat)
    requires layer.Valid()
    ensures Lost(layer, "q8_0", cells) == cells * (layer.ValueElements() / 32 * 2)
    ensures Lost(layer, "q4_0", cells) == cells * (layer.ValueElements() / 32 * 18)
    ensures Lost(layer, "f16", cells) == 0
  {
    hide S.TypeNamed;
    TypeOf(8, "q8_0");
    TypeOf(2, "q4_0");
    TypeOf(1, "f16");
  }

  lemma ProductZero(a: nat, b: nat)
    requires a > 0
    ensures a * b == 0 <==> b == 0
  {
  }

  lemma MissingExactly(section: AttentionSection, layers: seq<S.LayerKV>, kvType: string)
    requires S.AllValid(layers) && IsSized(section, layers, kvType)
    ensures Missing(section, layers, kvType) == 0 <==> Full(section, layers, kvType)
  {
    hide ValuesSized, Unblocked;
    if section.cellCount > 0 && layers != [] {
      ShortfallExactly(layers, kvType, section.cellCount);
    }
  }

  /** A section that carries these layers takes up what the size law says, less four bytes for every sequence id a cell does
      without, plus four for every one beyond the first, and less what columns leave out of blocks. With no cells both are
      eight bytes. The law refuses exactly the sections whose columns are no whole number of blocks. */
  lemma {:induction false} SectionOccupies(
      f: bytes, start: nat, end: nat, shape: AttentionShape, section: AttentionSection, layers: seq<S.LayerKV>, kvType: string)
    requires AttentionAt(f, start, end, shape) == Success(section) && Carries(section, layers, kvType)
    ensures !section.vTrans ==> IsSized(section, layers, kvType)
    ensures
      var ids := SeqIdTotal(f, start + 8, section.cellCount, ExtBytes(shape));
      var bytes := S.SectionBytes(layers, section.cellCount, kvType, S.BYTES_PER_CELL_META + ExtBytes(shape));
      && (bytes.Success? <==> IsSized(section, layers, kvType))
      && (bytes.Success? ==>
            bytes.value + 4 * ids == section.endOffset - start + 4 * section.cellCount + Missing(section, layers, kvType))
  {
    hide AttentionAt, Tiled, Sized, LayerMap, S.LayersBytes, SpanBytes, RowsMatch, AllSized, ForLayers, ValuesSized, Shortfall, SeqIdTotal;
    AttentionLayout(f, start, end, shape);
    if section.cellCount > 0 {
      var n := section.cellCount;
      var keys, values := KeySpans(section), ValueSpans(section);
      var data := DataStart(f, start, n, shape);
      TensorsOccupy(section, layers, kvType, data, LayerMap(section.nLayer, shape.layerIndices).value, shape.layerIndices);
      LayersOccupy(keys, values, layers, kvType, n, section.vTrans, 16 + (S.BYTES_PER_CELL_META + ExtBytes(shape)) * n);
      PerCellSplit(ExtBytes(shape), n);
      if !section.vTrans {
        RowsAreSized(keys, values, layers, kvType, n);
      }
    } else {
      NoCellsNoIds(f, start + 8, ExtBytes(shape));
    }
  }

  lemma RowsAreSized(keys: seq<TensorSpan>, values: seq<TensorSpan>, layers: seq<S.LayerKV>, kvType: string, cells: nat)
    requires RowsMatch(keys, values, layers, kvType) && AllSized(values, cells, false)
    ensures ValuesSized(layers, kvType)
  {
    hide S.RowSize, Sized;
    forall i | 0 <= i < |layers|
      ensures S.RowSize(kvType, layers[i].ValueElements()).Success?
    {
      assert ValueMatches(values[i], layers[i], kvType);
    }
  }

  lemma PerCellSplit(ext: nat, cells: nat)
    ensures (S.BYTES_PER_CELL_META + ext) * cells == (8 + ext) * cells + 4 * cells
  {
  }

  lemma {:induction false} TensorsOccupy(
      section: AttentionSection, layers: seq<S.LayerKV>, kvType: string, data: nat, names: seq<int>, layerIndices: Option<seq<int>>)
    requires section.cellCount > 0 && Carries(section, layers, kvType)
    requires LayerMap(section.nLayer, layerIndices) == Success(names) && |section.spans| == 2 * |names|
    requires ForLayers(section.spans[..|names|], names, Key, section.cellCount, false)
    requires ForLayers(section.spans[|names|..], names, Value, section.cellCount, section.vTrans)
    requires Tiled(section.spans, data, section.endOffset)
    ensures section.endOffset == data + SpanBytes(KeySpans(section)) + SpanBytes(ValueSpans(section))
    ensures AllSized(KeySpans(section), section.cellCount, false) && AllSized(ValueSpans(section), section.cellCount, section.vTrans)
  {
    hide Tiled, Sized, SpanBytes, RowsMatch;
    LayersDistinct(section.nLayer, layerIndices);
    TiledTotal(section.spans, data, section.endOffset);
    assert section.spans == KeySpans(section) + ValueSpans(section);
    SpanBytesJoin(KeySpans(section), ValueSpans(section));
  }

  // ---------------------------------------------------------------------------
  // Uniform geometries
  // ---------------------------------------------------------------------------

  lemma {:induction false} UniformLayers(layers: seq<S.LayerKV>, layer: S.LayerKV, cells: nat, kvType: string, total: nat)
    requires S.AllValid(layers) && layer.Valid() && S.LayerBytes(layer, cells, kvType).Success?
    requires forall i :: 0 <= i < |layers| ==> layers[i].(index := 0) == layer.(index := 0)
    ensures S.LayersBytes(layers, cells, kvType, total) == Success(total + |layers| * S.LayerBytes(layer, cells, kvType).value)
    decreases |layers|
  {
    hide S.RowSize;
    var bytes := S.LayerBytes(layer, cells, kvType).value;
    if layers != [] {
      assert layers[0].KeyElements() == layer.KeyElements() && layers[0].ValueElements() == layer.ValueElements();
      assert S.LayerBytes(layers[0], cells, kvType) == S.LayerBytes(layer, cells, kvType);
      UniformLayers(layers[1..], layer, cells, kvType, total + bytes);
      assert bytes + (|layers| - 1) * bytes == |layers| * bytes;
    }
  }

  lemma LayeredShape(g: S.KVGeometry)
    requires g.Valid()
    ensures g.Layered().Valid() && g.Layered().Base() == g.Layered().layers && g.Layered().Sliding() == []
    ensures |g.Layered().layers| == g.nLayer && S.AllValid(g.Layered().layers)
  {
    FilterAllOrNone(g.Layered().layers, S.StaysFull);
    FilterAllOrNone(g.Layered().layers, S.Slides);
  }

  /** The section term of both scalar laws, for a geometry whose layers agree. */
  lemma UniformSection(g: S.KVGeometry, cells: nat, kvType: string, perCell: nat, kRow: nat, vRow: nat)
    requires g.Valid() && S.RowSize(kvType, g.KeyElements()) == Success(kRow) && S.RowSize(kvType, g.ValueElements()) == Success(vRow)
    ensures S.AllValid(g.Layered().layers)
    ensures S.SectionBytes(g.Layered().layers, cells, kvType, perCell) == Success(
      if cells == 0 then 8 else 16 + perCell * cells + g.nLayer * (24 + cells * (kRow + vRow)))
  {
    hide S.RowSize, S.LayersBytes;
    LayeredShape(g);
    var layer := S.LayerKV(0, g.nKvHead, g.headDim, g.ValueDim(), false);
    assert S.LayerBytes(layer, cells, kvType) == Success(24 + cells * (kRow + vRow));
    UniformLayers(g.Layered().layers, layer, cells, kvType, 16 + perCell * cells);
  }

  /** One law or two? A uniform geometry sized per layer gives the scalar law's number exactly when there is a cell to size and
      the architecture is known to write no cell extension. With no cells the scalar law counts headers the writer skips; with a
      cell extension it leaves out twelve bytes a cell; where the extension is undecidable the per-layer law refuses. */
  lemma UniformIsLayered(g: S.KVGeometry, cells: int, kvType: string, headerTokens: Option<int>)
    requires S.StateBytes(g, cells, kvType, headerTokens).Success?
    ensures
      S.LayeredStateBytes(g.Layered(), cells, [], None, kvType, headerTokens) == S.StateBytes(g, cells, kvType, headerTokens)
      <==> cells >= 1 && S.WritesCellExt(g.architecture) == Success(false)
    ensures
      S.WritesCellExt(g.architecture).Success? ==>
        var layered := S.LayeredStateBytes(g.Layered(), cells, [], None, kvType, headerTokens);
        layered.Success? && S.StateBytes(g, cells, kvType, headerTokens).value - layered.value ==
          (if cells == 0 then 8 + 24 * g.nLayer else 0) - (if S.WritesCellExt(g.architecture).value then 12 * cells else 0)
  {
    hide S.RowSize, S.SectionBytes, S.WritesCellExt;
    LayeredShape(g);
    var kRow, vRow := S.RowSize(kvType, g.KeyElements()).value, S.RowSize(kvType, g.ValueElements()).value;
    hide S.LayeredGeometry.Valid, Filter;
    if S.WritesCellExt(g.architecture).Success? {
      var perCell := S.PerCell(g.architecture).value;
      UniformSection(g, cells, kvType, perCell, kRow, vRow);
      if cells > 0 {
        assert perCell * cells == 12 * cells + (perCell - 12) * cells;
      }
    }
  }

  // ---------------------------------------------------------------------------
  // Recurrent sections and the appendix
  // ---------------------------------------------------------------------------

  ghost predicate AllRows(spans: seq<TensorSpan>, row: int) {
    forall i :: 0 <= i < |spans| ==> spans[i].rowSize == row
  }

  /** A recurrent section of this geometry: its convolution rows first, its state rows after. */
  ghost predicate RecurrentShape(section: RecurrentSection, g: S.HybridGeometry, cells: nat) {
    && section.cellCount == cells && |section.spans| == 2 * g.recurrentLayers
    && AllRows(section.spans[..g.recurrentLayers], g.convRowBytes)
    && AllRows(section.spans[g.recurrentLayers..], g.ssmRowBytes)
  }

  lemma {:induction false} UniformSpanBytes(spans: seq<TensorSpan>, cells: nat, row: int)
    requires AllSized(spans, cells, false) && AllRows(spans, row)
    ensures SpanBytes(spans) == |spans| * (TENSOR_HEADER + cells * row)
    decreases |spans|
  {
    if spans != [] {
      UniformSpanBytes(spans[1..], cells, row);
      assert (|spans| - 1) * (TENSOR_HEADER + cells * row) + (TENSOR_HEADER + cells * row) == |spans| * (TENSOR_HEADER + cells * row);
    }
  }

  lemma RecurrentOccupies(
      f: bytes, start: nat, end: nat, layers: seq<int>, section: RecurrentSection, g: S.HybridGeometry, cells: nat)
    requires RecurrentAt(f, start, end, layers, true) == Success(section) && cells >= 1
    requires g.recurrentLayers >= 0 && RecurrentShape(section, g, cells)
    ensures section.endOffset - start == S.RecurrentBytes(g, cells)
  {
    hide RecurrentAt, Tiled, Sized, SpanBytes, AllRows;
    RecurrentLayout(f, start, end, layers, true, section);
    var n := g.recurrentLayers;
    var conv, state := section.spans[..n], section.spans[n..];
    TiledTotal(section.spans, start + 12 + 8 * cells, section.endOffset);
    assert section.spans == conv + state;
    SpanBytesJoin(conv, state);
    UniformSpanBytes(conv, cells, g.convRowBytes);
    UniformSpanBytes(state, cells, g.ssmRowBytes);
    RowsSum(n, cells, g.convRowBytes, g.ssmRowBytes);
  }

  lemma RowsSum(n: int, cells: int, a: int, b: int)
    ensures n * (TENSOR_HEADER + cells * a) + n * (TENSOR_HEADER + cells * b) == n * (2 * TENSOR_HEADER + cells * (a + b))
  {
    assert cells * (a + b) == cells * a + cells * b;
    Distribute(n, TENSOR_HEADER + cells * a, TENSOR_HEADER + cells * b);
  }

  lemma Distribute(n: int, x: int, y: int)
    ensures n * x + n * y == n * (x + y)
  {
  }

  lemma {:induction false} BlobsDecoded(v: View, off: nat, n: nat, layers: seq<int>, acc: seq<CheckpointBlob>, blobs: seq<CheckpointBlob>, o: nat)
    requires CheckpointsAt(v, off, n, layers, acc) == Success((blobs, o))
    ensures |blobs| == |acc| + n && acc <= blobs
    ensures forall i :: |acc| <= i < |blobs| ==> Decoded(v.file, layers, blobs[i])
    decreases n
  {
    hide CheckpointAt, Decoded;
    if n > 0 {
      var (blob, next) := CheckpointAt(v, off, layers).value;
      BlobDecoded(v, off, layers, blob, next);
      BlobsDecoded(v, next, n - 1, layers, acc + [blob], blobs, o);
    }
  }

  /** The record's target is a recurrent section that fills the payload behind its preamble. */
  ghost predicate Decoded(f: bytes, layers: seq<int>, blob: CheckpointBlob) {
    && blob.targetNbytes > CHECKPOINT_PAYLOAD_PREAMBLE
    && RecurrentAt(f, blob.targetOffset + CHECKPOINT_PAYLOAD_PREAMBLE, blob.targetOffset + blob.targetNbytes, layers, true)
         == Success(blob.target)
    && blob.target.endOffset == blob.targetOffset + blob.targetNbytes
  }

  lemma BlobDecoded(v: View, off: nat, layers: seq<int>, blob: CheckpointBlob, o: nat)
    requires CheckpointAt(v, off, layers) == Success((blob, o))
    ensures Decoded(v.file, layers, blob)
  {
    hide RecurrentAt, BufferAt;
  }

  ghost predicate AllShaped(blobs: seq<CheckpointBlob>, g: S.HybridGeometry, cells: nat) {
    forall i :: 0 <= i < |blobs| ==> RecurrentShape(blobs[i].target, g, cells)
  }

  lemma {:induction false} PayloadsOccupy(f: bytes, layers: seq<int>, blobs: seq<CheckpointBlob>, g: S.HybridGeometry, cells: nat)
    requires g.recurrentLayers >= 0 && cells >= 1 && AllShaped(blobs, g, cells)
    requires forall i :: 0 <= i < |blobs| ==> Decoded(f, layers, blobs[i])
    ensures E.PayloadTotal(blobs) == |blobs| * (CHECKPOINT_PAYLOAD_PREAMBLE + S.RecurrentBytes(g, cells))
    decreases |blobs|
  {
    hide RecurrentAt, S.RecurrentBytes, RecurrentShape;
    if blobs != [] {
      var front, last := blobs[..|blobs| - 1], blobs[|blobs| - 1];
      PayloadsOccupy(f, layers, front, g, cells);
      RecurrentOccupies(f, last.targetOffset + CHECKPOINT_PAYLOAD_PREAMBLE, last.targetOffset + last.targetNbytes, layers, last.target, g, cells);
      Distribute(CHECKPOINT_PAYLOAD_PREAMBLE + S.RecurrentBytes(g, cells), |front|, 1);
    }
  }

  /** An appendix takes the bytes the law counts for its records, and its header even when it has none: the law leaves those out. */
  lemma AppendixOccupies(f: bytes, start: nat, layers: seq<int>, blobs: seq<CheckpointBlob>, g: S.HybridGeometry, cells: nat)
    requires AppendixAt(f, start, |f|, layers) == Success(blobs)
    requires g.recurrentLayers >= 0 && cells >= 1 && AllShaped(blobs, g, cells)
    ensures |f| - start == S.AppendixBytes(g, |blobs|, cells) + if blobs == [] then S.CHECKPOINT_APPENDIX_HEADER else 0
  {
    hide AppendixAt, CheckpointsAt, Decoded, RecurrentShape, E.StreamAt, S.RecurrentBytes;
    E.DeepAndShallowAgree(f, start, layers, blobs);
    var count := E.HeaderParts(f, start, layers, blobs);
    BlobsDecoded(View(f, |f|), start + 12, count, layers, [], blobs, |f|);
    PayloadsOccupy(f, layers, blobs, g, cells);
    Distribute(|blobs|, 40, CHECKPOINT_PAYLOAD_PREAMBLE + S.RecurrentBytes(g, cells));
  }

  // ---------------------------------------------------------------------------
  // Whole files
  // ---------------------------------------------------------------------------

  /** The four readers consume the file back to back: envelope, attention, recurrent state, and an appendix when there is one;
      an appendix may hold no records. */
  ghost predicate HybridFile(
      f: bytes, shape: AttentionShape, layers: seq<int>,
      envelope: E.Envelope, attention: AttentionSection, recurrent: RecurrentSection, appendix: Option<seq<CheckpointBlob>>)
  {
    && E.ParseFileEnvelope(f) == Success(envelope)
    && AttentionAt(f, envelope.bodyOffset, |f|, shape) == Success(attention)
    && RecurrentAt(f, attention.endOffset, |f|, layers, true) == Success(recurrent)
    && (appendix.None? ==> recurrent.endOffset == |f|)
    && (appendix.Some? ==> AppendixAt(f, recurrent.endOffset, |f|, layers) == Success(appendix.value))
  }

  ghost function Records(appendix: Option<seq<CheckpointBlob>>): seq<CheckpointBlob> {
    if appendix.None? then [] else appendix.value
  }

  /** The geometry is this file's: the extension its architecture writes, its rows under the cache type, and its recurrent
      shape in the main state and in every checkpoint. */
  ghost predicate Describes(
      g: S.HybridGeometry, kvType: string, shape: AttentionShape,
      attention: AttentionSection, recurrent: RecurrentSection, blobs: seq<CheckpointBlob>)
  {
    && g.Attention().Valid() && g.recurrentLayers >= 0 && g.convRowBytes > 0 && g.ssmRowBytes > 0
    && S.PerCell(g.architecture) == Success(S.BYTES_PER_CELL_META + ExtBytes(shape))
    && Carries(attention, g.Attention().Layered().layers, kvType)
    && recurrent.cellCount >= 1 && RecurrentShape(recurrent, g, recurrent.cellCount) && AllShaped(blobs, g, recurrent.cellCount)
  }

  /** The whole-file law, with everything that can move it: four bytes for every sequence id beyond or short of one a cell,
      twelve for an appendix without records, what transposed values leave out of blocks, and at zero cells the headers the
      writer leaves out. The prediction is exact if and only if there is a cell and the three make up for one another; with one
      id a cell and no empty appendix, if and only if values are rows or their type has no blocks. */
  lemma {:induction false} HybridFileSize(
      f: bytes, shape: AttentionShape, layers: seq<int>, g: S.HybridGeometry, kvType: string,
      envelope: E.Envelope, attention: AttentionSection, recurrent: RecurrentSection, appendix: Option<seq<CheckpointBlob>>)
    requires HybridFile(f, shape, layers, envelope, attention, recurrent, appendix)
    requires Describes(g, kvType, shape, attention, recurrent, Records(appendix))
    ensures
      var predicted := S.HybridStateBytes(g, attention.cellCount, |Records(appendix)|, kvType, Some(|envelope.tokenIds|), recurrent.cellCount);
      var cells := attention.cellCount;
      var ids := SeqIdTotal(f, envelope.bodyOffset + 8, cells, ExtBytes(shape));
      var empty := if appendix == Some([]) then 12 else 0;
      var missing := Missing(attention, g.Attention().Layered().layers, kvType);
      && (predicted.Success? <==> RowsSized(g, kvType))
      && (predicted.Success? && cells > 0 ==> |f| == predicted.value + 4 * (ids - cells) + empty - missing)
      && (predicted.Success? && cells == 0 ==> |f| == predicted.value - (8 + 24 * g.attentionLayers) + empty)
      && (predicted.Success? && cells > 0 ==> (missing == 0 <==> !attention.vTrans || Unblocked(kvType)))
      && (predicted == Success(|f|) <==> RowsSized(g, kvType) && cells >= 1 && 4 * ids + empty == 4 * cells + missing)
      && (ids == cells && appendix != Some([]) ==>
            (predicted == Success(|f|) <==> RowsSized(g, kvType) && cells >= 1 && (!attention.vTrans || Unblocked(kvType))))
  {
    hide AttentionAt, RecurrentAt, AppendixAt, Carries, RecurrentShape, AllShaped, S.RowSize, S.RecurrentBytes, S.AppendixBytes,
      S.HybridAttentionBytes, S.SectionBytes, S.KVGeometry.Valid, S.KVGeometry.Layered, S.PerCell, E.ParseFileEnvelope, SeqIdTotal,
      Missing, IsSized, Unblocked, RowsSized;
    var cells := attention.cellCount;
    var attentionLayers := g.Attention().Layered().layers;
    LayeredShape(g.Attention());
    EnvelopeSize(f, envelope);
    NoCellsNoIds(f, envelope.bodyOffset + 8, ExtBytes(shape));
    SectionOccupies(f, envelope.bodyOffset, |f|, shape, attention, attentionLayers, kvType);
    RecurrentOccupies(f, attention.endOffset, |f|, layers, recurrent, g, recurrent.cellCount);
    NoAppendixBytes(g, recurrent.cellCount);
    if appendix.Some? {
      AppendixOccupies(f, recurrent.endOffset, layers, appendix.value, g, recurrent.cellCount);
    }
    SomeLayers(g);
    SizedRows(g, cells, kvType, S.BYTES_PER_CELL_META + ExtBytes(shape));
    if RowsSized(g, kvType) {
      ScalarIsSection(g, cells, kvType, S.BYTES_PER_CELL_META + ExtBytes(shape));
      MissingExactly(attention, attentionLayers, kvType);
    }
    if cells == 0 {
      NothingMissingWithoutCells(attention, attentionLayers, kvType);
    }
  }

  lemma NothingMissingWithoutCells(section: AttentionSection, layers: seq<S.LayerKV>, kvType: string)
    requires S.AllValid(layers) && section.cellCount == 0
    ensures Missing(section, layers, kvType) == 0
  {
  }

  /** The law has row sizes for the geometry's keys and values under this cache type. */
  predicate RowsSized(g: S.HybridGeometry, kvType: string)
    requires g.Attention().Valid()
  {
    S.RowSize(kvType, g.Attention().KeyElements()).Success? && S.RowSize(kvType, g.Attention().ValueElements()).Success?
  }

  lemma SizedRows(g: S.HybridGeometry, cells: nat, kvType: string, perCell: nat)
    requires g.Attention().Valid() && S.PerCell(g.architecture) == Success(perCell)
    ensures S.HybridAttentionBytes(g, cells, kvType).Success? <==> RowsSized(g, kvType)
  {
    hide S.RowSize, S.PerCell;
  }

  lemma SomeLayers(g: S.HybridGeometry)
    requires g.Attention().Valid()
    ensures g.attentionLayers >= 1
  {
  }

  /** The hybrid law's attention term is the per-layer section of the same geometry, but for the headers of an empty one. */
  lemma ScalarIsSection(g: S.HybridGeometry, cells: nat, kvType: string, perCell: nat)
    requires g.Attention().Valid() && S.PerCell(g.architecture) == Success(perCell)
    requires RowsSized(g, kvType)
    ensures S.HybridAttentionBytes(g, cells, kvType).Success? && S.AllValid(g.Attention().Layered().layers)
    ensures
      S.SectionBytes(g.Attention().Layered().layers, cells, kvType, perCell)
      == Success(S.HybridAttentionBytes(g, cells, kvType).value - if cells == 0 then 8 + 24 * g.attentionLayers else 0)
  {
    hide S.RowSize, S.SectionBytes, S.PerCell, S.KVGeometry.Layered;
    var kRow := S.RowSize(kvType, g.Attention().KeyElements()).value;
    var vRow := S.RowSize(kvType, g.Attention().ValueElements()).value;
    UniformSection(g.Attention(), cells, kvType, perCell, kRow, vRow);
  }

  lemma EnvelopeSize(f: bytes, envelope: E.Envelope)
    requires E.ParseFileEnvelope(f) == Success(envelope)
    ensures envelope.bodyOffset == S.FILE_HEADER + S.BYTES_PER_HEADER_TOKEN * |envelope.tokenIds|
  {
  }

  lemma {:induction false} NoCellsNoIds(f: bytes, off: nat, ext: nat)
    ensures SeqIdTotal(f, off, 0, ext) == 0
  {
  }

  lemma NoAppendixBytes(g: S.HybridGeometry, cells: int)
    ensures S.AppendixBytes(g, 0, cells) == 0
  {
  }

  /** A save of a sliding-window model: envelope, base section, sliding section when some layers slide, and an appendix of
      checkpoints when there is one, back to back to the end of the file. A checkpoint is a sliding section alone. */
  ghost predicate LayeredFile(
      f: bytes, baseShape: AttentionShape, slidingShape: AttentionShape,
      envelope: E.Envelope, base: AttentionSection, sliding: Option<AttentionSection>, appendix: Option<seq<AttentionSection>>)
  {
    && E.ParseFileEnvelope(f) == Success(envelope)
    && AttentionAt(f, envelope.bodyOffset, |f|, baseShape) == Success(base)
    && (sliding.Some? ==> AttentionAt(f, base.endOffset, |f|, slidingShape) == Success(sliding.value))
    && AppendixFrom(f, BodyEnd(base, sliding), slidingShape, appendix)
  }

  ghost function BodyEnd(base: AttentionSection, sliding: Option<AttentionSection>): nat {
    if sliding.None? then base.endOffset else sliding.value.endOffset
  }

  /** Nothing, or the 12-byte header and one record per checkpoint, up to the end of the file. */
  ghost predicate AppendixFrom(f: bytes, off: nat, shape: AttentionShape, appendix: Option<seq<AttentionSection>>) {
    if appendix.None? then off == |f| else
    off + 12 <= |f| && f[off..off + 4] == SCKP_MAGIC && U32(f, off + 8) == |appendix.value| && RecordsFrom(f, off + 12, shape, appendix.value)
  }

  /** Each record: 16 bytes of extent, a buffer of 8 bytes and a sliding section, and two empty buffers. */
  ghost predicate RecordsFrom(f: bytes, off: nat, shape: AttentionShape, sections: seq<AttentionSection>)
    decreases |sections|
  {
    if sections == [] then off == |f| else
    && off + 24 <= |f|
    && var last := off + 24 + U64(f, off + 16);
    && last + 16 <= |f| && U64(f, last) == 0 && U64(f, last + 8) == 0
    && AttentionAt(f, off + 24 + CHECKPOINT_PAYLOAD_PREAMBLE, last, shape) == Success(sections[0]) && sections[0].endOffset == last
    && RecordsFrom(f, last + 16, shape, sections[1..])
  }

  /** Sequence ids of all the checkpoints' cells. */
  ghost function RecordIds(f: bytes, off: nat, shape: AttentionShape, sections: seq<AttentionSection>): nat
    decreases |sections|
  {
    if sections == [] then 0 else
    SeqIdTotal(f, off + 40, sections[0].cellCount, ExtBytes(shape)) + RecordIds(f, sections[0].endOffset + 16, shape, sections[1..])
  }

  ghost function CellCounts(sections: seq<AttentionSection>): (counts: seq<int>)
    ensures |counts| == |sections| && forall i :: 0 <= i < |sections| ==> counts[i] == sections[i].cellCount
  {
    seq(|sections|, i requires 0 <= i < |sections| => sections[i].cellCount)
  }

  ghost function CellTotal(sections: seq<AttentionSection>): nat {
    if sections == [] then 0 else sections[0].cellCount + CellTotal(sections[1..])
  }

  ghost predicate AllAreSized(sections: seq<AttentionSection>, layers: seq<S.LayerKV>, kvType: string)
    requires S.AllValid(layers)
  {
    forall i :: 0 <= i < |sections| ==> IsSized(sections[i], layers, kvType)
  }

  ghost function MissingTotal(sections: seq<AttentionSection>, layers: seq<S.LayerKV>, kvType: string): nat
    requires S.AllValid(layers)
  {
    if sections == [] then 0 else Missing(sections[0], layers, kvType) + MissingTotal(sections[1..], layers, kvType)
  }

  ghost predicate AllFull(sections: seq<AttentionSection>, layers: seq<S.LayerKV>, kvType: string) {
    forall i :: 0 <= i < |sections| ==> Full(sections[i], layers, kvType)
  }

  lemma {:induction false} MissingTotalExactly(sections: seq<AttentionSection>, layers: seq<S.LayerKV>, kvType: string)
    requires S.AllValid(layers) && AllAreSized(sections, layers, kvType)
    ensures MissingTotal(sections, layers, kvType) == 0 <==> AllFull(sections, layers, kvType)
    decreases |sections|
  {
    hide Missing, IsSized, Full;
    if sections != [] {
      MissingExactly(sections[0], layers, kvType);
      MissingTotalExactly(sections[1..], layers, kvType);
      assert sections == [sections[0]] + sections[1..];
    }
  }

  lemma AllAreSizedCons(sections: seq<AttentionSection>, layers: seq<S.LayerKV>, kvType: string)
    requires S.AllValid(layers) && sections != []
    ensures AllAreSized(sections, layers, kvType) <==> IsSized(sections[0], layers, kvType) && AllAreSized(sections[1..], layers, kvType)
  {
    hide IsSized;
    assert sections == [sections[0]] + sections[1..];
  }

  lemma {:induction false} RecordsOccupy(
      f: bytes, off: nat, shape: AttentionShape, sections: seq<AttentionSection>, layers: seq<S.LayerKV>, kvType: string, total: nat)
    requires RecordsFrom(f, off, shape, sections) && S.AllValid(layers)
    requires forall i :: 0 <= i < |sections| ==> Carries(sections[i], layers, kvType)
    ensures
      var bytes := S.CheckpointSections(layers, CellCounts(sections), kvType, S.BYTES_PER_CELL_META + ExtBytes(shape), total);
      && (bytes.Success? <==> AllAreSized(sections, layers, kvType))
      && (bytes.Success? ==>
            bytes.value + 4 * RecordIds(f, off, shape, sections)
            == total + |f| - off + 4 * CellTotal(sections) + MissingTotal(sections, layers, kvType))
    decreases |sections|
  {
    hide AttentionAt, Carries, SeqIdTotal, S.SectionBytes, U64, S.AllValid, IsSized, AllAreSized, Missing, CellCounts;
    if sections == [] {
      NoneToSize(layers, kvType);
    } else {
      var section := sections[0];
      var perCell := S.BYTES_PER_CELL_META + ExtBytes(shape);
      assert Carries(section, layers, kvType);
      SectionOccupies(f, off + 32, section.endOffset, shape, section, layers, kvType);
      AllAreSizedCons(sections, layers, kvType);
      assert CellCounts(sections)[1..] == CellCounts(sections[1..]);
      var bytes := S.SectionBytes(layers, section.cellCount, kvType, perCell);
      if bytes.Success? {
        RecordsOccupy(f, section.endOffset + 16, shape, sections[1..], layers, kvType, total + 48 + bytes.value);
      }
    }
  }

  lemma NoneToSize(layers: seq<S.LayerKV>, kvType: string)
    requires S.AllValid(layers)
    ensures AllAreSized([], layers, kvType)
  {
  }

  ghost function CellsIn(section: Option<AttentionSection>): Option<int> {
    if section.None? then None else Some(section.value.cellCount)
  }

  ghost function CheckpointsIn(appendix: Option<seq<AttentionSection>>): seq<AttentionSection> {
    if appendix.None? then [] else appendix.value
  }

  ghost function IdsIn(f: bytes, start: nat, shape: AttentionShape, section: Option<AttentionSection>): nat {
    if section.None? then 0 else SeqIdTotal(f, start + 8, section.value.cellCount, ExtBytes(shape))
  }

  /** The geometry is this file's: per-cell bytes, rows under the cache type, and checkpoints no larger than the sliding section. */
  ghost predicate DescribesLayers(
      g: S.LayeredGeometry, kvType: string, baseShape: AttentionShape, slidingShape: AttentionShape,
      base: AttentionSection, sliding: Option<AttentionSection>, checkpoints: seq<AttentionSection>)
  {
    && g.Valid() && !S.Refused(g.architecture)
    && S.PerCell(g.architecture) == Success(S.BYTES_PER_CELL_META + ExtBytes(baseShape)) && ExtBytes(slidingShape) == ExtBytes(baseShape)
    && Carries(base, g.Base(), kvType) && (sliding.Some? <==> g.Sliding() != [])
    && (sliding.Some? ==> Carries(sliding.value, g.Sliding(), kvType) && sliding.value.cellCount <= base.cellCount)
    && (sliding.None? ==> checkpoints == [])
    && forall i :: 0 <= i < |checkpoints| ==>
         Carries(checkpoints[i], g.Sliding(), kvType) && checkpoints[i].cellCount <= sliding.value.cellCount
  }

  /** The base section and, if there is one, the sliding section and its checkpoints all have the law's size. */
  ghost predicate PartsSized(g: S.LayeredGeometry, kvType: string, base: AttentionSection, slid: seq<AttentionSection>)
    requires g.Valid()
  {
    IsSized(base, g.Base(), kvType) && AllAreSized(slid, g.Sliding(), kvType)
  }

  /** The sections of the sliding layers: the sliding section and the checkpoints. */
  ghost function SlidingParts(sliding: Option<AttentionSection>, checkpoints: seq<AttentionSection>): seq<AttentionSection> {
    (if sliding.None? then [] else [sliding.value]) + checkpoints
  }

  lemma SlidingPartsSized(sliding: Option<AttentionSection>, checkpoints: seq<AttentionSection>, layers: seq<S.LayerKV>, kvType: string)
    requires S.AllValid(layers)
    ensures AllAreSized(SlidingParts(sliding, checkpoints), layers, kvType) <==>
      (sliding.Some? ==> IsSized(sliding.value, layers, kvType)) && AllAreSized(checkpoints, layers, kvType)
    ensures MissingTotal(SlidingParts(sliding, checkpoints), layers, kvType)
         == (if sliding.None? then 0 else Missing(sliding.value, layers, kvType)) + MissingTotal(checkpoints, layers, kvType)
  {
    hide IsSized, Missing, AllAreSized;
    var parts := SlidingParts(sliding, checkpoints);
    if sliding.Some? {
      assert parts[1..] == checkpoints;
      AllAreSizedCons(parts, layers, kvType);
    } else {
      assert parts == checkpoints;
    }
  }

  /** The sliding-window law: a file of a base and a sliding section, checkpoints included, is as long as the per-layer law
      predicts but for four bytes per sequence id beyond or short of one a cell, twelve for an appendix without records, and
      what transposed values leave out of blocks; exactly so, down to sections of no cells at all, if and only if these make
      up for one another. The last is nothing exactly where every section is rows, empty, or of a type without blocks. */
  lemma {:induction false} LayeredFileSize(
      f: bytes, baseShape: AttentionShape, slidingShape: AttentionShape, g: S.LayeredGeometry, kvType: string,
      envelope: E.Envelope, base: AttentionSection, sliding: Option<AttentionSection>, appendix: Option<seq<AttentionSection>>)
    requires LayeredFile(f, baseShape, slidingShape, envelope, base, sliding, appendix)
    requires DescribesLayers(g, kvType, baseShape, slidingShape, base, sliding, CheckpointsIn(appendix))
    ensures
      var checkpoints := CheckpointsIn(appendix);
      var slid := SlidingParts(sliding, checkpoints);
      var predicted := S.LayeredStateBytes(g, base.cellCount, CellCounts(checkpoints), CellsIn(sliding), kvType, Some(|envelope.tokenIds|));
      var ids := IdsIn(f, envelope.bodyOffset, baseShape, Some(base)) + IdsIn(f, base.endOffset, slidingShape, sliding)
                 + RecordIds(f, BodyEnd(base, sliding) + 12, slidingShape, checkpoints);
      var cells := base.cellCount + (if sliding.None? then 0 else sliding.value.cellCount) + CellTotal(checkpoints);
      var empty := if appendix == Some([]) then 12 else 0;
      var missing := Missing(base, g.Base(), kvType) + MissingTotal(slid, g.Sliding(), kvType);
      && (predicted.Success? <==> PartsSized(g, kvType, base, slid))
      && (predicted.Success? ==> |f| == predicted.value + 4 * (ids - cells) + empty - missing)
      && (predicted.Success? ==> (missing == 0 <==> Full(base, g.Base(), kvType) && AllFull(slid, g.Sliding(), kvType)))
      && (predicted == Success(|f|) <==> PartsSized(g, kvType, base, slid) && 4 * ids + empty == 4 * cells + missing)
  {
    hide AttentionAt, Carries, S.LayeredStateBytes, E.ParseFileEnvelope, S.SectionBytes, S.CheckpointSections, SeqIdTotal, U32,
      S.LayeredGeometry.Valid, S.LayeredGeometry.Base, S.LayeredGeometry.Sliding, S.PerCell, S.Refused, RecordsFrom,
      IsSized, AllAreSized, Missing, MissingTotal, Full, AllFull, SlidingParts, CellCounts;
    SectionOccupies(f, envelope.bodyOffset, |f|, baseShape, base, g.Base(), kvType);
    if sliding.Some? {
      SectionOccupies(f, base.endOffset, |f|, slidingShape, sliding.value, g.Sliding(), kvType);
    }
    EnvelopeSize(f, envelope);
    var perCell := S.BYTES_PER_CELL_META + ExtBytes(baseShape);
    var checkpoints := CheckpointsIn(appendix);
    if appendix.Some? && checkpoints == [] {
      NothingLeft(f, BodyEnd(base, sliding) + 12, slidingShape);
    }
    NoCheckpoints(g.Sliding(), kvType);
    if checkpoints != [] {
      RecordsOccupy(f, BodyEnd(base, sliding) + 12, slidingShape, checkpoints, g.Sliding(), kvType, S.CHECKPOINT_APPENDIX_HEADER);
    }
    SlidingPartsSized(sliding, checkpoints, g.Sliding(), kvType);
    LayeredSum(g, base.cellCount, CellsIn(sliding), CellCounts(checkpoints), kvType, |envelope.tokenIds|, perCell);
    if PartsSized(g, kvType, base, SlidingParts(sliding, checkpoints)) {
      MissingExactly(base, g.Base(), kvType);
      MissingTotalExactly(SlidingParts(sliding, checkpoints), g.Sliding(), kvType);
    }
  }

  lemma NoCheckpoints(layers: seq<S.LayerKV>, kvType: string)
    requires S.AllValid(layers)
    ensures AllAreSized([], layers, kvType) && MissingTotal([], layers, kvType) == 0 && CellCounts([]) == []
  {
  }

  lemma NothingLeft(f: bytes, off: nat, shape: AttentionShape)
    ensures RecordsFrom(f, off, shape, []) <==> off == |f|
  {
  }

  ghost function SlidingBytes(g: S.LayeredGeometry, sliding: Option<int>, kvType: string, perCell: nat): Result<nat, S.SizingError>
    requires g.Valid() && (sliding.Some? ==> sliding.value >= 0)
  {
    if sliding.None? then Success(0) else S.SectionBytes(g.Sliding(), sliding.value, kvType, perCell)
  }

  ghost function CheckpointBytes(g: S.LayeredGeometry, counts: seq<int>, kvType: string, perCell: nat): Result<nat, S.SizingError>
    requires g.Valid() && forall i :: 0 <= i < |counts| ==> counts[i] >= 0
  {
    if counts == [] then Success(0) else S.CheckpointSections(g.Sliding(), counts, kvType, perCell, S.CHECKPOINT_APPENDIX_HEADER)
  }

  /** The per-layer law, as the sum of its parts. */
  lemma {:induction false} LayeredSum(
      g: S.LayeredGeometry, cells: nat, sliding: Option<int>, counts: seq<int>, kvType: string, tokens: nat, perCell: nat)
    requires g.Valid() && !S.Refused(g.architecture) && S.PerCell(g.architecture) == Success(perCell)
    requires (sliding.Some? <==> g.Sliding() != []) && (sliding.None? ==> counts == [])
    requires sliding.Some? ==> 0 <= sliding.value <= cells
    requires forall i :: 0 <= i < |counts| ==> sliding.Some? && 0 <= counts[i] <= sliding.value
    ensures
      var first := S.SectionBytes(g.Base(), cells, kvType, perCell);
      var second := SlidingBytes(g, sliding, kvType, perCell);
      var third := CheckpointBytes(g, counts, kvType, perCell);
      var law := S.LayeredStateBytes(g, cells, counts, sliding, kvType, Some(tokens));
      && (law.Success? <==> first.Success? && second.Success? && third.Success?)
      && (law.Success? ==>
            law.value == S.FILE_HEADER + S.BYTES_PER_HEADER_TOKEN * tokens + (first.value + second.value) + third.value)
  {
    hide S.SectionBytes, S.LayeredGeometry.Valid, S.LayeredGeometry.Base, S.LayeredGeometry.Sliding, S.PerCell, S.Refused, S.CheckpointSections;
  }
}
