/** Two parsers written apart read one section alike: whatever the bounded reader accepts, the whole-blob parser
    accepts from the same bytes, field for field, offsets shifted by where the section starts. */
module GgsqAgreement {
  import opened Wrappers
  import opened Bytes
  import opened GgsqReader
  import opened GgsqProperties
  import P = GgsqParser

  /** `blob` is the part of `f` that begins at `start`. */
  ghost predicate Window(f: bytes, start: nat, blob: bytes) {
    start + |blob| <= |f| && blob == f[start..start + |blob|]
  }

  lemma WindowFields(f: bytes, start: nat, blob: bytes, off: nat)
    requires Window(f, start, blob) && start <= off
    ensures off + 4 <= start + |blob| ==>
      P.ReadU32(blob, off - start) == Success((U32(f, off), off + 4 - start)) &&
      P.ReadI32(blob, off - start) == Success((I32(f, off), off + 4 - start))
    ensures off + 8 <= start + |blob| ==> P.ReadU64(blob, off - start) == Success((U64(f, off), off + 8 - start))
  {
    SliceFields(f, start, start + |blob|, off - start);
  }

  // ---------------------------------------------------------------------------
  // Cells
  // ---------------------------------------------------------------------------

  lemma {:induction false} SeqIdsStep(blob: bytes, off: nat, n: nat, acc: seq<int>)
    requires off + 4 * n <= |blob|
    ensures P.SeqIds(blob, off, n, acc).Success? && P.SeqIds(blob, off, n, acc).value.1 == off + 4 * n
    decreases n
  {
    if n > 0 {
      SeqIdsStep(blob, off + 4, n - 1, acc + [P.ReadI32(blob, off).value.0]);
    }
  }

  lemma CellAgrees(f: bytes, start: nat, blob: bytes, end: nat, off: nat, shape: AttentionShape, pos: int, o: nat)
    returns (ids: seq<int>)
    requires Window(f, start, blob) && start <= off && o <= start + |blob|
    requires CellAt(View(f, end), off, shape) == Success((pos, o))
    ensures off <= o && P.Cell(blob, off - start, shape.hasCellExt, shape.cellExtSize) == Success((pos, ids, o - start))
  {
    hide P.SeqIds, CellAt;
    CellPlacement(View(f, end), off, shape);
    WindowFields(f, start, blob, off);
    WindowFields(f, start, blob, off + 4);
    hide P.ReadU32, P.ReadI32, Window;
    var n := U32(f, off + 4);
    var first := off + 8 + ExtBytes(shape) - start;
    SeqIdsStep(blob, first, n, []);
    ids := P.SeqIds(blob, first, n, []).value.0;
  }

  lemma {:induction false} CellsAgree(
      f: bytes, start: nat, blob: bytes, end: nat, off: nat, n: nat, shape: AttentionShape,
      acc: seq<int>, ids: seq<seq<int>>, positions: seq<int>, o: nat)
    returns (seqIds: seq<seq<int>>)
    requires Window(f, start, blob) && start <= off && o <= start + |blob|
    requires CellsAt(View(f, end), off, n, shape, acc) == Success((positions, o))
    ensures off <= o
    ensures
      P.Cells(blob, off - start, n, shape.hasCellExt, shape.cellExtSize, acc, ids) == Success((positions, seqIds, o - start))
    decreases n
  {
    hide CellAt, P.Cell, Window;
    if n > 0 {
      var (pos, next) := CellAt(View(f, end), off, shape).value;
      CellsGrow(View(f, end), next, n - 1, shape, acc + [pos]);
      var cellIds := CellAgrees(f, start, blob, end, off, shape, pos, next);
      seqIds := CellsAgree(f, start, blob, end, next, n - 1, shape, acc + [pos], ids + [cellIds], positions, o);
    } else {
      seqIds := ids;
    }
  }

  // ---------------------------------------------------------------------------
  // Layer entries
  // ---------------------------------------------------------------------------

  /** The reader's span and the parser's entry locate the same payload and describe it alike. */
  ghost predicate Same(span: TensorSpan, entry: P.LayerEntry, start: nat, cells: nat) {
    && span.offset == entry.offset + start && span.nbytes == entry.nbytes
    && span.typeId == entry.ggmlType
    && (span.kind == Key <==> entry.kind == P.KeyEntry) && (span.kind == Value <==> entry.kind == P.ValueEntry)
    && (span.transposed ==> span.nElements == entry.nEmbdVGqa && span.rowSize == entry.rowSize * cells)
    && (!span.transposed ==> entry.nEmbdVGqa == 0 && span.rowSize == entry.rowSize)
  }

  ghost predicate AllSame(spans: seq<TensorSpan>, entries: seq<P.LayerEntry>, start: nat, cells: nat) {
    |spans| == |entries| && forall i :: 0 <= i < |spans| ==> Same(spans[i], entries[i], start, cells)
  }

  /** Entries numbered in order from li. */
  ghost predicate Numbered(entries: seq<P.LayerEntry>, li: nat) {
    forall i :: 0 <= i < |entries| ==> entries[i].index == li + i
  }

  function EntryKindOf(kind: Kind): P.EntryKind {
    if kind == Key then P.KeyEntry else P.ValueEntry
  }

  lemma RowSpanAgrees(
      f: bytes, start: nat, blob: bytes, end: nat, off: nat, layer: int, li: nat, kind: Kind, cells: nat, span: TensorSpan, o: nat)
    returns (entry: P.LayerEntry)
    requires Window(f, start, blob) && start <= off && o <= start + |blob|
    requires (kind == Key || kind == Value)
    requires RowSpanAt(View(f, end), off, layer, kind, cells) == Success((span, o))
    ensures P.RowEntry(blob, off - start, li, EntryKindOf(kind), cells) == Success((entry, o - start))
    ensures Same(span, entry, start, cells) && entry.index == li
  {
    WindowFields(f, start, blob, off);
    WindowFields(f, start, blob, off + 4);
    hide P.ReadI32, P.ReadU64, ElementsFromRowSize, Window;
    entry := P.LayerEntry(li, EntryKindOf(kind), span.typeId, span.rowSize, 0, off + 12 - start, span.nbytes);
  }

  lemma TransposedSpanAgrees(
      f: bytes, start: nat, blob: bytes, end: nat, off: nat, layer: int, li: nat, cells: nat, span: TensorSpan, o: nat)
    returns (entry: P.LayerEntry)
    requires Window(f, start, blob) && start <= off && o <= start + |blob|
    requires TransposedSpanAt(View(f, end), off, layer, cells) == Success((span, o))
    ensures P.TransposedEntry(blob, off - start, li, cells) == Success((entry, o - start))
    ensures Same(span, entry, start, cells) && entry.index == li
  {
    hide U32, I32, P.ReadU32, P.ReadI32, TransposedSpanAt, Window;
    TransposedParts(f, end, off, layer, cells, span, o);
    WindowFields(f, start, blob, off);
    WindowFields(f, start, blob, off + 4);
    WindowFields(f, start, blob, off + 8);
    entry := P.LayerEntry(li, P.ValueEntry, span.typeId, U32(f, off + 4), U32(f, off + 8), off + 12 - start, span.nbytes);
  }

  lemma {:induction false} TransposedParts(f: bytes, end: nat, off: nat, layer: int, cells: nat, span: TensorSpan, o: nat)
    requires TransposedSpanAt(View(f, end), off, layer, cells) == Success((span, o))
    ensures off + 12 <= |f| && o == off + 12 + span.nbytes
    ensures var size, width := U32(f, off + 4), U32(f, off + 8);
      span == TensorSpan(layer, Value, I32(f, off), size * cells, width, off + 12, width * cells * size, true)
  {
    hide U32, I32, TypeById;
  }

  lemma SpanAgrees(
      f: bytes, start: nat, blob: bytes, end: nat, off: nat, layer: int, li: nat, kind: Kind, cells: nat, transposed: bool,
      span: TensorSpan, o: nat)
    returns (entry: P.LayerEntry)
    requires Window(f, start, blob) && start <= off && o <= start + |blob|
    requires (kind == Key || kind == Value)
    requires SpanAt(View(f, end), off, layer, kind, cells, transposed) == Success((span, o))
    ensures P.Entry(blob, off - start, li, EntryKindOf(kind), cells, transposed) == Success((entry, o - start))
    ensures Same(span, entry, start, cells) && entry.index == li
  {
    hide P.RowEntry, P.TransposedEntry, RowSpanAt, TransposedSpanAt, Window, Same;
    if transposed {
      entry := TransposedSpanAgrees(f, start, blob, end, off, layer, li, cells, span, o);
    } else {
      entry := RowSpanAgrees(f, start, blob, end, off, layer, li, kind, cells, span, o);
    }
  }

  lemma AllSameExtend(spans: seq<TensorSpan>, entries: seq<P.LayerEntry>, span: TensorSpan, entry: P.LayerEntry, start: nat, cells: nat)
    requires AllSame(spans, entries, start, cells) && Same(span, entry, start, cells)
    ensures AllSame(spans + [span], entries + [entry], start, cells)
  {
  }

  lemma {:induction false} SpansAgree(
      f: bytes, start: nat, blob: bytes, end: nat, off: nat, layers: seq<int>, li: nat, nLayer: nat, kind: Kind, cells: nat, transposed: bool,
      acc: seq<TensorSpan>, entries: seq<P.LayerEntry>, from: nat, spans: seq<TensorSpan>, o: nat)
    returns (parsed: seq<P.LayerEntry>)
    requires Window(f, start, blob) && start <= off && o <= start + |blob|
    requires (kind == Key || kind == Value) && (transposed ==> kind == Value)
    requires Tiled(acc, from, off) && |layers| + li == nLayer && AllSame(acc, entries, start, cells)
    requires SpansAt(View(f, end), off, layers, kind, cells, transposed, acc) == Success((spans, o))
    ensures
      && P.Entries(blob, off - start, li, nLayer, EntryKindOf(kind), cells, transposed, entries) == Success((parsed, o - start))
      && AllSame(spans, parsed, start, cells)
      && entries <= parsed && Numbered(parsed[|entries|..], li)
    decreases |layers|
  {
    hide SpanAt, P.Entry, Same, Sized, Window, ForLayers;
    if layers == [] {
      parsed := entries;
    } else {
      SpanPlacement(View(f, end), off, layers[0], kind, cells, transposed);
      var (span, next) := SpanAt(View(f, end), off, layers[0], kind, cells, transposed).value;
      TiledExtend(acc, span, from, off);
      hide Tiled;
      SpansPlacement(View(f, end), next, layers[1..], kind, cells, transposed, acc + [span], from);
      var entry := SpanAgrees(f, start, blob, end, off, layers[0], li, kind, cells, transposed, span, next);
      AllSameExtend(acc, entries, span, entry, start, cells);
      hide AllSame;
      parsed := SpansAgree(f, start, blob, end, next, layers[1..], li + 1, nLayer, kind, cells, transposed, acc + [span], entries + [entry], from, spans, o);
      assert parsed[|entries|..] == [entry] + parsed[|entries| + 1..];
    }
  }

  // ---------------------------------------------------------------------------
  // The section and the stream
  // ---------------------------------------------------------------------------

  /** The parser's stream is the reader's section, its entries numbered by position within each pass. */
  ghost predicate SameSection(section: AttentionSection, stream: P.StreamInfo, start: nat) {
    && stream.index == 0 && stream.cellCount == section.cellCount && stream.positions == section.positions
    && stream.vTrans == section.vTrans && stream.nLayer == section.nLayer
    && AllSame(section.spans, stream.layers, start, section.cellCount)
    && section.nLayer <= |stream.layers|
    && Numbered(stream.layers[..section.nLayer], 0) && Numbered(stream.layers[section.nLayer..], 0)
  }

  lemma {:induction false} StreamAgrees(f: bytes, start: nat, blob: bytes, end: nat, shape: AttentionShape, section: AttentionSection)
    returns (stream: P.StreamInfo)
    requires Window(f, start, blob)
    requires AttentionAt(f, start, end, shape) == Success(section) && section.endOffset <= start + |blob| && section.cellCount > 0
    ensures P.StreamBody(blob, 8, 0, section.cellCount, shape.hasCellExt, shape.cellExtSize) == Success((stream, section.endOffset - start))
    ensures SameSection(section, stream, start)
  {
    hide AttentionAt, CellsAt, SpansAt, P.Cells, P.Entries, P.StreamBody, LayerMap, AllSame, Sized, ForLayers, Window, Numbered,
         Tiled, DataStart, U32, P.ReadU32;
    var v := View(f, end);
    var cells := section.cellCount;
    var layers, keys, middle := AttentionParts(f, start, end, shape, section);
    var data := DataStart(f, start, cells, shape);
    NothingTiled(data);
    SpansPlacement(v, data, layers, Key, cells, false, [], data);
    SpansPlacement(v, middle, layers, Value, cells, section.vTrans, keys, data);

    var seqIds := CellsAgree(f, start, blob, end, start + 8, cells, shape, [], [], section.positions, data - 8);
    EmptySame(start, cells);
    LayersDistinct(section.nLayer, shape.layerIndices);
    var entries := SpansAgree(f, start, blob, end, data, layers, 0, section.nLayer, Key, cells, false, [], [], data, keys, middle);
    var parsed := SpansAgree(f, start, blob, end, middle, layers, 0, section.nLayer, Value, cells, section.vTrans, keys, entries, data, section.spans, section.endOffset);

    WindowFields(f, start, blob, data - 8);
    WindowFields(f, start, blob, data - 4);
    EntryCount(keys, entries, layers, start, cells);
    stream := P.StreamInfo(0, cells, section.positions, seqIds, section.vTrans, section.nLayer, parsed);
    StreamFromParts(blob, shape, stream, data - 8 - start, U32(f, data - 8), entries, middle - start, section.endOffset - start);
    assert parsed[..section.nLayer] == entries[0..];
  }

  lemma NothingTiled(at: nat)
    ensures Tiled([], at, at)
  {
  }

  /** The steps of the other parser, one after the other. */
  lemma {:induction false} StreamFromParts(
      blob: bytes, shape: AttentionShape, stream: P.StreamInfo, o: int, vTrans: nat, keys: seq<P.LayerEntry>, middle: int, last: int)
    requires P.Cells(blob, 8, stream.cellCount, shape.hasCellExt, shape.cellExtSize, [], []) == Success((stream.positions, stream.seqIds, o))
    requires P.ReadU32(blob, o) == Success((vTrans, o + 4)) && P.ReadU32(blob, o + 4) == Success((stream.nLayer, o + 8))
    requires P.Entries(blob, o + 8, 0, stream.nLayer, P.KeyEntry, stream.cellCount, false, []) == Success((keys, middle))
    requires P.Entries(blob, middle, 0, stream.nLayer, P.ValueEntry, stream.cellCount, stream.vTrans, keys) == Success((stream.layers, last))
    requires stream.vTrans == (vTrans != 0) && stream.index == 0
    ensures P.StreamBody(blob, 8, 0, stream.cellCount, shape.hasCellExt, shape.cellExtSize) == Success((stream, last))
  {
    hide P.Cells, P.ReadU32, P.Entries;
  }

  lemma EmptySame(start: nat, cells: nat)
    ensures AllSame([], [], start, cells)
  {
  }

  lemma EntryCount(keys: seq<TensorSpan>, entries: seq<P.LayerEntry>, layers: seq<int>, start: nat, cells: nat)
    requires AllSame(keys, entries, start, cells) && ForLayers(keys[0..], layers, Key, cells, false)
    ensures |entries| == |layers|
  {
  }

  /** Every section the bounded reader accepts at `start` is the one stream the other parser finds in the bytes from
      `start`, however far past the section those bytes run. */
  lemma ParsersAgree(f: bytes, start: nat, blob: bytes, end: nat, shape: AttentionShape, section: AttentionSection)
    requires Window(f, start, blob)
    requires AttentionAt(f, start, end, shape) == Success(section) && section.endOffset <= start + |blob|
    ensures
      var result := P.ParseSpec(blob, shape.hasCellExt, shape.cellExtSize);
      && result.Success? && result.value.nStream == 1
      && (section.cellCount == 0 ==> result.value.streams == [])
      && (section.cellCount > 0 ==> |result.value.streams| == 1 && SameSection(section, result.value.streams[0], start))
  {
    hide AttentionAt, P.StreamBody, SameSection, P.ReadU32, Window, P.ParseSpec;
    WindowFields(f, start, blob, start);
    WindowFields(f, start, blob, start + 4);
    if section.cellCount == 0 {
      EmptyParts(f, start, end, shape, section);
      EmptyStream(blob, shape.hasCellExt, shape.cellExtSize);
    } else {
      StartsWithCounts(f, start, end, shape, section);
      EndsAfterCounts(f, start, end, shape, section);
      var stream := StreamAgrees(f, start, blob, end, shape, section);
      OneStream(blob, shape.hasCellExt, shape.cellExtSize, section.cellCount, stream, section.endOffset - start);
    }
  }

  lemma {:induction false} StartsWithCounts(f: bytes, start: nat, end: nat, shape: AttentionShape, section: AttentionSection)
    requires AttentionAt(f, start, end, shape) == Success(section) && section.cellCount > 0
    ensures start + 8 <= |f| && U32(f, start) == 1 && U32(f, start + 4) == section.cellCount
  {
    hide AttentionAt, CellsAt, TensorsAt, U32;
    var _, _ := AttentionSteps(f, start, end, shape, section);
  }

  lemma EmptyParts(f: bytes, start: nat, end: nat, shape: AttentionShape, section: AttentionSection)
    requires AttentionAt(f, start, end, shape) == Success(section) && section.cellCount == 0
    ensures section.endOffset == start + 8 <= |f| && U32(f, start) == 1 && U32(f, start + 4) == 0
  {
    hide TensorsAt, CellsAt;
  }

  lemma EndsAfterCounts(f: bytes, start: nat, end: nat, shape: AttentionShape, section: AttentionSection)
    requires AttentionAt(f, start, end, shape) == Success(section) && section.cellCount > 0
    ensures start + 8 <= section.endOffset
  {
    hide AttentionAt, CellsAt, SpansAt, Tiled, LayerMap, Sized, ForLayers;
    var layers, keys, middle := AttentionParts(f, start, end, shape, section);
    AttentionLayout(f, start, end, shape);
    var data := DataStart(f, start, section.cellCount, shape);
    CellsGrow(View(f, end), start + 8, section.cellCount, shape, []);
    TiledEnds(section.spans, data, section.endOffset);
  }

  lemma {:induction false} TiledEnds(spans: seq<TensorSpan>, from: nat, to: nat)
    requires Tiled(spans, from, to)
    ensures from <= to
    decreases |spans|
  {
    if spans != [] {
      TiledEnds(spans[..|spans| - 1], from, spans[|spans| - 1].offset - TENSOR_HEADER);
    }
  }

  lemma EmptyStream(blob: bytes, hasCellExt: bool, cellExtSize: int)
    requires P.ReadU32(blob, 0) == Success((1, 4)) && P.ReadU32(blob, 4) == Success((0, 8))
    ensures P.ParseSpec(blob, hasCellExt, cellExtSize) == Success(P.GgsqBlob(1, [], |blob|))
  {
    hide P.ReadU32, P.StreamBody;
    assert P.Streams(blob, 8, 1, 1, hasCellExt, cellExtSize, []) == Success([]);
    assert P.Streams(blob, 4, 0, 1, hasCellExt, cellExtSize, []) == Success([]);
  }

  lemma OneStream(blob: bytes, hasCellExt: bool, cellExtSize: int, cells: nat, stream: P.StreamInfo, o: int)
    requires P.ReadU32(blob, 0) == Success((1, 4)) && P.ReadU32(blob, 4) == Success((cells, 8)) && cells > 0
    requires P.StreamBody(blob, 8, 0, cells, hasCellExt, cellExtSize) == Success((stream, o))
    ensures P.ParseSpec(blob, hasCellExt, cellExtSize) == Success(P.GgsqBlob(1, [stream], |blob|))
  {
    hide P.ReadU32, P.StreamBody;
    assert [] + [stream] == [stream];
    assert P.Streams(blob, o, 1, 1, hasCellExt, cellExtSize, [stream]) == Success([stream]);
    assert P.Streams(blob, 4, 0, 1, hasCellExt, cellExtSize, []) == Success([stream]);
  }
}
