/** The independent parser of the ggsq body, which holds the whole blob and reads every field. */
module GgsqParser {
  import opened Wrappers
  import opened Bytes

  datatype ParseError = FieldPastEnd | DataPastEnd

  datatype EntryKind = KeyEntry | ValueEntry

  datatype LayerEntry = LayerEntry(
    index: nat, kind: EntryKind, ggmlType: int, rowSize: nat, nEmbdVGqa: nat, offset: int, nbytes: nat)

  datatype StreamInfo = StreamInfo(
    index: nat, cellCount: nat, positions: seq<int>, seqIds: seq<seq<int>>,
    vTrans: bool, nLayer: nat, layers: seq<LayerEntry>)

  datatype GgsqBlob = GgsqBlob(nStream: nat, streams: seq<StreamInfo>, totalBytes: nat)

  // ---------------------------------------------------------------------------
  // Fields
  // ---------------------------------------------------------------------------

  function Require(blob: bytes, off: int, size: int): (r: Result<int, ParseError>)
    ensures r.Success? ==> off >= 0 && r.value == off + size <= |blob|
  {
    if off < 0 || off + size > |blob| then Failure(FieldPastEnd) else Success(off + size)
  }

  function ReadU32(blob: bytes, off: int): Result<(nat, int), ParseError> {
    var end :- Require(blob, off, 4);
    Success((U32(blob, off), end))
  }

  function ReadI32(blob: bytes, off: int): Result<(int, int), ParseError> {
    var end :- Require(blob, off, 4);
    Success((I32(blob, off), end))
  }

  function ReadU64(blob: bytes, off: int): Result<(nat, int), ParseError> {
    var end :- Require(blob, off, 8);
    Success((U64(blob, off), end))
  }

  function CheckData(blob: bytes, off: int, nbytes: nat): Result<int, ParseError> {
    if off + nbytes > |blob| then Failure(DataPastEnd) else Success(off + nbytes)
  }

  // ---------------------------------------------------------------------------
  // Cells
  // ---------------------------------------------------------------------------

  function SeqIds(blob: bytes, off: int, n: nat, acc: seq<int>): Result<(seq<int>, int), ParseError>
    decreases n
  {
    if n == 0 then Success((acc, off)) else
    var (sid, o) :- ReadI32(blob, off);
    SeqIds(blob, o, n - 1, acc + [sid])
  }

  /** One cell: its position, its sequence ids, and where the next one starts. */
  function Cell(blob: bytes, off: int, hasCellExt: bool, cellExtSize: int): Result<(int, seq<int>, int), ParseError> {
    var (pos, o1) :- ReadI32(blob, off);
    var (nSeqId, o2) :- ReadU32(blob, o1);
    var o3 :- if hasCellExt then Require(blob, o2, cellExtSize) else Success(o2);
    var (ids, o4) :- SeqIds(blob, o3, nSeqId, []);
    Success((pos, ids, o4))
  }

  function Cells(blob: bytes, off: int, n: nat, hasCellExt: bool, cellExtSize: int, positions: seq<int>, seqIds: seq<seq<int>>)
    : Result<(seq<int>, seq<seq<int>>, int), ParseError>
    decreases n
  {
    if n == 0 then Success((positions, seqIds, off)) else
    var (pos, ids, o) :- Cell(blob, off, hasCellExt, cellExtSize);
    Cells(blob, o, n - 1, hasCellExt, cellExtSize, positions + [pos], seqIds + [ids])
  }

  method ParseCells(blob: bytes, start: int, n: nat, hasCellExt: bool, cellExtSize: int)
    returns (r: Result<(seq<int>, seq<seq<int>>, int), ParseError>)
    ensures r == Cells(blob, start, n, hasCellExt, cellExtSize, [], [])
  {
    hide Cell;
    var off, positions, seqIds := start, [], [];
    for c := 0 to n
      invariant Cells(blob, start, n, hasCellExt, cellExtSize, [], []) == Cells(blob, off, n - c, hasCellExt, cellExtSize, positions, seqIds)
    {
      var cell :- ParseCell(blob, off, hasCellExt, cellExtSize);
      positions, seqIds, off := positions + [cell.0], seqIds + [cell.1], cell.2;
    }
    return Success((positions, seqIds, off));
  }

  method ParseCell(blob: bytes, start: int, hasCellExt: bool, cellExtSize: int) returns (r: Result<(int, seq<int>, int), ParseError>)
    ensures r == Cell(blob, start, hasCellExt, cellExtSize)
  {
    hide ReadI32, ReadU32;
    var pos :- ReadI32(blob, start);
    var nSeqId :- ReadU32(blob, pos.1);
    var off := nSeqId.1;
    if hasCellExt {
      off :- Require(blob, off, cellExtSize);
    }
    var ids := [];
    ghost var first := off;
    for q := 0 to nSeqId.0
      invariant SeqIds(blob, first, nSeqId.0, []) == SeqIds(blob, off, nSeqId.0 - q, ids)
    {
      var sid :- ReadI32(blob, off);
      off, ids := sid.1, ids + [sid.0];
    }
    return Success((pos.0, ids, off));
  }

  // ---------------------------------------------------------------------------
  // Layer entries
  // ---------------------------------------------------------------------------

  function RowEntry(blob: bytes, off: int, li: nat, kind: EntryKind, cells: nat): Result<(LayerEntry, int), ParseError> {
    var (ggmlType, o1) :- ReadI32(blob, off);
    var (rowSize, o2) :- ReadU64(blob, o1);
    var o3 :- CheckData(blob, o2, cells * rowSize);
    Success((LayerEntry(li, kind, ggmlType, rowSize, 0, o2, cells * rowSize), o3))
  }

  function TransposedEntry(blob: bytes, off: int, li: nat, cells: nat): Result<(LayerEntry, int), ParseError> {
    var (ggmlType, o1) :- ReadI32(blob, off);
    var (sizeEl, o2) :- ReadU32(blob, o1);
    var (width, o3) :- ReadU32(blob, o2);
    var o4 :- CheckData(blob, o3, width * cells * sizeEl);
    Success((LayerEntry(li, ValueEntry, ggmlType, sizeEl, width, o3, width * cells * sizeEl), o4))
  }

  function Entry(blob: bytes, off: int, li: nat, kind: EntryKind, cells: nat, transposed: bool): Result<(LayerEntry, int), ParseError> {
    if transposed then TransposedEntry(blob, off, li, cells) else RowEntry(blob, off, li, kind, cells)
  }

  function Entries(blob: bytes, off: int, li: nat, nLayer: nat, kind: EntryKind, cells: nat, transposed: bool, acc: seq<LayerEntry>)
    : Result<(seq<LayerEntry>, int), ParseError>
    requires li <= nLayer
    decreases nLayer - li
  {
    if li == nLayer then Success((acc, off)) else
    var (entry, o) :- Entry(blob, off, li, kind, cells, transposed);
    Entries(blob, o, li + 1, nLayer, kind, cells, transposed, acc + [entry])
  }

  method ParseEntries(blob: bytes, start: int, nLayer: nat, kind: EntryKind, cells: nat, transposed: bool, collected: seq<LayerEntry>)
    returns (r: Result<(seq<LayerEntry>, int), ParseError>)
    ensures r == Entries(blob, start, 0, nLayer, kind, cells, transposed, collected)
  {
    var off, entries := start, collected;
    for li := 0 to nLayer
      invariant Entries(blob, start, 0, nLayer, kind, cells, transposed, collected)
             == Entries(blob, off, li, nLayer, kind, cells, transposed, entries)
    {
      var ggmlType :- ReadI32(blob, off);
      if !transposed {
        var rowSize :- ReadU64(blob, ggmlType.1);
        var nbytes := cells * rowSize.0;
        off :- CheckData(blob, rowSize.1, nbytes);
        entries := entries + [LayerEntry(li, kind, ggmlType.0, rowSize.0, 0, rowSize.1, nbytes)];
      } else {
        var sizeEl :- ReadU32(blob, ggmlType.1);
        var width :- ReadU32(blob, sizeEl.1);
        var nbytes := width.0 * cells * sizeEl.0;
        off :- CheckData(blob, width.1, nbytes);
        entries := entries + [LayerEntry(li, ValueEntry, ggmlType.0, sizeEl.0, width.0, width.1, nbytes)];
      }
    }
    return Success((entries, off));
  }

  // ---------------------------------------------------------------------------
  // Streams
  // ---------------------------------------------------------------------------

  /** The part of a stream after its nonzero cell count. */
  function StreamBody(blob: bytes, off: int, s: nat, cells: nat, hasCellExt: bool, cellExtSize: int): Result<(StreamInfo, int), ParseError> {
    var (positions, seqIds, o1) :- Cells(blob, off, cells, hasCellExt, cellExtSize, [], []);
    var (vTrans, o2) :- ReadU32(blob, o1);
    var (nLayer, o3) :- ReadU32(blob, o2);
    var (keys, o4) :- Entries(blob, o3, 0, nLayer, KeyEntry, cells, false, []);
    var (layers, o5) :- Entries(blob, o4, 0, nLayer, ValueEntry, cells, vTrans != 0, keys);
    Success((StreamInfo(s, cells, positions, seqIds, vTrans != 0, nLayer, layers), o5))
  }

  function Streams(blob: bytes, off: int, s: nat, nStream: nat, hasCellExt: bool, cellExtSize: int, acc: seq<StreamInfo>)
    : Result<seq<StreamInfo>, ParseError>
    requires s <= nStream
    decreases nStream - s
  {
    if s == nStream then Success(acc) else
    var (cells, o1) :- ReadU32(blob, off);
    if cells == 0 then Streams(blob, o1, s + 1, nStream, hasCellExt, cellExtSize, acc) else
    var (info, o2) :- StreamBody(blob, o1, s, cells, hasCellExt, cellExtSize);
    Streams(blob, o2, s + 1, nStream, hasCellExt, cellExtSize, acc + [info])
  }

  function ParseSpec(blob: bytes, hasCellExt: bool, cellExtSize: int): Result<GgsqBlob, ParseError> {
    var (nStream, off) :- ReadU32(blob, 0);
    var streams :- Streams(blob, off, 0, nStream, hasCellExt, cellExtSize, []);
    Success(GgsqBlob(nStream, streams, |blob|))
  }

  method Parse(blob: bytes, hasCellExt: bool, cellExtSize: int) returns (r: Result<GgsqBlob, ParseError>)
    ensures r == ParseSpec(blob, hasCellExt, cellExtSize)
  {
    hide Cells, Entries;
    var nStream :- ReadU32(blob, 0);
    var off, streams := nStream.1, [];
    for s := 0 to nStream.0
      invariant Streams(blob, nStream.1, 0, nStream.0, hasCellExt, cellExtSize, [])
             == Streams(blob, off, s, nStream.0, hasCellExt, cellExtSize, streams)
    {
      var cells :- ReadU32(blob, off);
      off := cells.1;
      if cells.0 == 0 { continue; }
      var meta :- ParseCells(blob, off, cells.0, hasCellExt, cellExtSize);
      var vTrans :- ReadU32(blob, meta.2);
      var nLayer :- ReadU32(blob, vTrans.1);
      var keys :- ParseEntries(blob, nLayer.1, nLayer.0, KeyEntry, cells.0, false, []);
      var layers :- ParseEntries(blob, keys.1, nLayer.0, ValueEntry, cells.0, vTrans.0 != 0, keys.0);
      off := layers.1;
      streams := streams + [StreamInfo(s, cells.0, meta.0, meta.1, vTrans.0 != 0, nLayer.0, layers.0)];
    }
    return Success(GgsqBlob(nStream.0, streams, |blob|));
  }
}
