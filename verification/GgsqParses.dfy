/** Exactly which blobs the independent parser accepts, with any number of streams, and what it makes of them. */
module GgsqParses {
  import opened Wrappers
  import opened Bytes
  import opened GgsqParser

  predicate Within(blob: bytes, off: int, n: int) {
    0 <= off && off + n <= |blob|
  }

  // Cells

  predicate AreIds(blob: bytes, off: int, ids: seq<int>) {
    (ids != [] ==> Within(blob, off, 4 * |ids|)) && forall i :: 0 <= i < |ids| ==> ids[i] == I32(blob, off + 4 * i)
  }

  lemma {:induction false} IdsExactly(blob: bytes, off: int, n: nat, acc: seq<int>, ids: seq<int>, next: int)
    ensures SeqIds(blob, off, n, acc) == Success((acc + ids, next)) <==> |ids| == n && AreIds(blob, off, ids) && next == off + 4 * n
    decreases n
  {
    hide I32;
    IdsExtend(blob, off, n, acc);
    if n == 0 {
      assert acc + ids == acc <==> ids == [];
    } else if ReadI32(blob, off).Success? {
      var sid := I32(blob, off);
      if ids != [] {
        IdsExactly(blob, off + 4, n - 1, acc + [sid], ids[1..], next);
        if ids[0] == sid {
          assert acc + [sid] + ids[1..] == acc + ids;
          IdsCons(blob, off, ids);
        } else {
          assert (acc + ids)[|acc|] == ids[0];
        }
      } else {
        assert acc + ids == acc;
      }
    }
  }

  lemma IdsCons(blob: bytes, off: int, ids: seq<int>)
    requires ids != [] && Within(blob, off, 4) && ids[0] == I32(blob, off)
    ensures AreIds(blob, off, ids) <==> AreIds(blob, off + 4, ids[1..])
  {
    hide I32;
    var rest := ids[1..];
    if AreIds(blob, off, ids) {
      forall i | 0 <= i < |rest|
        ensures rest[i] == I32(blob, off + 4 + 4 * i)
      {
        assert ids[i + 1] == I32(blob, off + 4 * (i + 1));
      }
    }
    if AreIds(blob, off + 4, rest) {
      forall i | 0 <= i < |ids|
        ensures Within(blob, off, 4 * |ids|) && ids[i] == I32(blob, off + 4 * i)
      {
        if i > 0 {
          assert rest[i - 1] == I32(blob, off + 4 + 4 * (i - 1));
        }
      }
    }
  }

  lemma {:induction false} IdsExtend(blob: bytes, off: int, n: nat, acc: seq<int>)
    ensures var r := SeqIds(blob, off, n, acc);
      && (r.Success? ==> acc <= r.value.0)
      && (r.Success? && n > 0 ==> |acc| < |r.value.0| && r.value.0[|acc|] == ReadI32(blob, off).value.0)
    decreases n
  {
    hide I32;
    if n > 0 && ReadI32(blob, off).Success? {
      IdsExtend(blob, off + 4, n - 1, acc + [I32(blob, off)]);
    }
  }

  /** Position, count of ids, extension and ids; nothing limits the count, and the extension may be negative. */
  predicate IsCell(blob: bytes, hasExt: bool, ext: int, off: int, pos: int, ids: seq<int>, next: int) {
    && Within(blob, off, 8) && pos == I32(blob, off) && |ids| == U32(blob, off + 4)
    && var at := off + 8 + if hasExt then ext else 0;
    && at <= |blob| && AreIds(blob, at, ids) && next == at + 4 * |ids|
  }

  lemma CellExactly(blob: bytes, hasExt: bool, ext: int, off: int, pos: int, ids: seq<int>, next: int)
    ensures Cell(blob, off, hasExt, ext) == Success((pos, ids, next)) <==> IsCell(blob, hasExt, ext, off, pos, ids, next)
  {
    hide SeqIds, AreIds, I32, U32;
    if Within(blob, off, 8) {
      var n := U32(blob, off + 4);
      var at := off + 8 + if hasExt then ext else 0;
      IdsExactly(blob, at, n, [], ids, next);
      assert [] + ids == ids;
      var read := SeqIds(blob, at, n, []);
      if read.Success? {
        var (found, stop) := read.value;
        assert read == Success((found, stop));
      }
    }
  }

  ghost predicate AreCells(blob: bytes, hasExt: bool, ext: int, off: int, positions: seq<int>, seqIds: seq<seq<int>>, stop: int)
    decreases |positions|
  {
    if positions == [] || seqIds == [] then positions == [] && seqIds == [] && stop == off else
    exists next :: IsCell(blob, hasExt, ext, off, positions[0], seqIds[0], next)
      && AreCells(blob, hasExt, ext, next, positions[1..], seqIds[1..], stop)
  }

  lemma {:induction false} CellsExactly(
      blob: bytes, hasExt: bool, ext: int, off: int, n: nat, pre: seq<int>, preIds: seq<seq<int>>,
      positions: seq<int>, seqIds: seq<seq<int>>, stop: int)
    ensures Cells(blob, off, n, hasExt, ext, pre, preIds) == Success((pre + positions, preIds + seqIds, stop)) <==>
      |positions| == n && |seqIds| == n && AreCells(blob, hasExt, ext, off, positions, seqIds, stop)
    decreases n
  {
    hide Cell, IsCell;
    if n == 0 {
      assert pre + positions == pre <==> positions == [];
      assert preIds + seqIds == preIds <==> seqIds == [];
    } else {
      forall pos, ids, next
        ensures Cell(blob, off, hasExt, ext) == Success((pos, ids, next)) <==> IsCell(blob, hasExt, ext, off, pos, ids, next)
      {
        CellExactly(blob, hasExt, ext, off, pos, ids, next);
      }
      CellsExtend(blob, hasExt, ext, off, n, pre, preIds);
      var first := Cell(blob, off, hasExt, ext);
      if first.Success? {
        var (pos, ids, next) := first.value;
        assert first == Success((pos, ids, next));
        if positions != [] && seqIds != [] {
          CellsExactly(blob, hasExt, ext, next, n - 1, pre + [pos], preIds + [ids], positions[1..], seqIds[1..], stop);
          assert (pre + positions)[|pre|] == positions[0] && (preIds + seqIds)[|preIds|] == seqIds[0];
          if positions[0] == pos && seqIds[0] == ids {
            assert pre + [pos] + positions[1..] == pre + positions && preIds + [ids] + seqIds[1..] == preIds + seqIds;
          }
        } else {
          assert positions == [] ==> pre + positions == pre;
          assert seqIds == [] ==> preIds + seqIds == preIds;
        }
      }
    }
  }

  lemma {:induction false} CellsExtend(blob: bytes, hasExt: bool, ext: int, off: int, n: nat, pre: seq<int>, preIds: seq<seq<int>>)
    ensures var r := Cells(blob, off, n, hasExt, ext, pre, preIds);
      && (r.Success? ==> pre <= r.value.0 && preIds <= r.value.1)
      && (r.Success? && n > 0 ==>
            && |pre| < |r.value.0| && r.value.0[|pre|] == Cell(blob, off, hasExt, ext).value.0
            && |preIds| < |r.value.1| && r.value.1[|preIds|] == Cell(blob, off, hasExt, ext).value.1)
    decreases n
  {
    hide Cell;
    if n > 0 && Cell(blob, off, hasExt, ext).Success? {
      var (pos, ids, next) := Cell(blob, off, hasExt, ext).value;
      CellsExtend(blob, hasExt, ext, next, n - 1, pre + [pos], preIds + [ids]);
    }
  }

  // Tensors

  predicate IsEntry(blob: bytes, off: int, li: nat, kind: EntryKind, cells: nat, transposed: bool, entry: LayerEntry, next: int) {
    && Within(blob, off, 12)
    && var nbytes := if transposed then U32(blob, off + 8) * cells * U32(blob, off + 4) else cells * U64(blob, off + 4);
    && next == off + 12 + nbytes && next <= |blob|
    && entry == LayerEntry(
         li, if transposed then ValueEntry else kind, I32(blob, off),
         if transposed then U32(blob, off + 4) else U64(blob, off + 4), if transposed then U32(blob, off + 8) else 0,
         off + 12, nbytes)
  }

  lemma EntryExactly(blob: bytes, off: int, li: nat, kind: EntryKind, cells: nat, transposed: bool, entry: LayerEntry, next: int)
    ensures Entry(blob, off, li, kind, cells, transposed) == Success((entry, next)) <==>
      IsEntry(blob, off, li, kind, cells, transposed, entry, next)
  {
    hide U32, U64, I32;
  }

  /** Entries numbered from `li` on, back to back. */
  ghost predicate AreEntries(
      blob: bytes, off: int, li: nat, kind: EntryKind, cells: nat, transposed: bool, entries: seq<LayerEntry>, stop: int)
    decreases |entries|
  {
    if entries == [] then stop == off else
    exists next :: IsEntry(blob, off, li, kind, cells, transposed, entries[0], next)
      && AreEntries(blob, next, li + 1, kind, cells, transposed, entries[1..], stop)
  }

  lemma {:induction false} EntriesExactly(
      blob: bytes, off: int, li: nat, n: nat, kind: EntryKind, cells: nat, transposed: bool, acc: seq<LayerEntry>,
      entries: seq<LayerEntry>, stop: int)
    requires li <= n
    ensures Entries(blob, off, li, n, kind, cells, transposed, acc) == Success((acc + entries, stop)) <==>
      |entries| == n - li && AreEntries(blob, off, li, kind, cells, transposed, entries, stop)
    decreases n - li
  {
    hide Entry, IsEntry;
    if li == n {
      assert acc + entries == acc <==> entries == [];
    } else {
      forall entry, next
        ensures Entry(blob, off, li, kind, cells, transposed) == Success((entry, next)) <==>
          IsEntry(blob, off, li, kind, cells, transposed, entry, next)
      {
        EntryExactly(blob, off, li, kind, cells, transposed, entry, next);
      }
      EntriesExtend(blob, off, li, n, kind, cells, transposed, acc);
      var first := Entry(blob, off, li, kind, cells, transposed);
      if first.Success? {
        var (entry, next) := first.value;
        assert first == Success((entry, next));
        if entries != [] {
          EntriesExactly(blob, next, li + 1, n, kind, cells, transposed, acc + [entry], entries[1..], stop);
          if entries[0] == entry {
            assert acc + [entry] + entries[1..] == acc + entries;
          } else {
            assert (acc + entries)[|acc|] == entries[0];
          }
        } else {
          assert acc + entries == acc;
        }
      }
    }
  }

  lemma {:induction false} EntriesExtend(
      blob: bytes, off: int, li: nat, n: nat, kind: EntryKind, cells: nat, transposed: bool, acc: seq<LayerEntry>)
    requires li <= n
    ensures var r := Entries(blob, off, li, n, kind, cells, transposed, acc);
      && (r.Success? ==> acc <= r.value.0)
      && (r.Success? && li < n ==>
            |acc| < |r.value.0| && r.value.0[|acc|] == Entry(blob, off, li, kind, cells, transposed).value.0)
    decreases n - li
  {
    hide Entry;
    if li < n && Entry(blob, off, li, kind, cells, transposed).Success? {
      var (entry, next) := Entry(blob, off, li, kind, cells, transposed).value;
      EntriesExtend(blob, next, li + 1, n, kind, cells, transposed, acc + [entry]);
    }
  }

  // Streams

  ghost predicate AreLayers(blob: bytes, off: int, info: StreamInfo, stop: int) {
    exists keys, values, middle ::
      && info.layers == keys + values && |keys| == |values| == info.nLayer
      && AreEntries(blob, off, 0, KeyEntry, info.cellCount, false, keys, middle)
      && AreEntries(blob, middle, 0, ValueEntry, info.cellCount, info.vTrans, values, stop)
  }

  ghost predicate ReadsLayers(blob: bytes, off: int, info: StreamInfo, stop: int) {
    var first := Entries(blob, off, 0, info.nLayer, KeyEntry, info.cellCount, false, []);
    && first.Success?
    && Entries(blob, first.value.1, 0, info.nLayer, ValueEntry, info.cellCount, info.vTrans, first.value.0) == Success((info.layers, stop))
  }

  lemma LayersExactly(blob: bytes, off: int, info: StreamInfo, stop: int)
    ensures ReadsLayers(blob, off, info, stop) <==> AreLayers(blob, off, info, stop)
  {
    hide Entries, AreEntries;
    var n, cells := info.nLayer, info.cellCount;
    if ReadsLayers(blob, off, info, stop) {
      var (keys, middle) := Entries(blob, off, 0, n, KeyEntry, cells, false, []).value;
      assert Entries(blob, off, 0, n, KeyEntry, cells, false, []) == Success((keys, middle));
      EntriesExactly(blob, off, 0, n, KeyEntry, cells, false, [], keys, middle);
      assert [] + keys == keys;
      EntriesExtend(blob, middle, 0, n, ValueEntry, cells, info.vTrans, keys);
      var values := info.layers[|keys|..];
      assert info.layers == keys + values;
      EntriesExactly(blob, middle, 0, n, ValueEntry, cells, info.vTrans, keys, values, stop);
    }
    if AreLayers(blob, off, info, stop) {
      var keys, values, middle :|
        && info.layers == keys + values && |keys| == |values| == info.nLayer
        && AreEntries(blob, off, 0, KeyEntry, info.cellCount, false, keys, middle)
        && AreEntries(blob, middle, 0, ValueEntry, info.cellCount, info.vTrans, values, stop);
      EntriesExactly(blob, off, 0, n, KeyEntry, cells, false, [], keys, middle);
      assert [] + keys == keys;
      EntriesExactly(blob, middle, 0, n, ValueEntry, cells, info.vTrans, keys, values, stop);
    }
  }

  /** A stream behind its cell count. */
  ghost predicate IsStream(blob: bytes, hasExt: bool, ext: int, off: int, s: nat, cells: nat, info: StreamInfo, next: int) {
    && info.index == s && info.cellCount == cells && |info.positions| == |info.seqIds| == cells
    && exists at ::
         && AreCells(blob, hasExt, ext, off, info.positions, info.seqIds, at) && Within(blob, at, 8)
         && info.vTrans == (U32(blob, at) != 0) && info.nLayer == U32(blob, at + 4) && AreLayers(blob, at + 8, info, next)
  }

  lemma StreamReads(blob: bytes, hasExt: bool, ext: int, off: int, s: nat, cells: nat, info: StreamInfo, next: int)
    ensures
      var read := Cells(blob, off, cells, hasExt, ext, [], []);
      StreamBody(blob, off, s, cells, hasExt, ext) == Success((info, next)) <==>
      && info.index == s && info.cellCount == cells && read.Success?
      && read.value.0 == info.positions && read.value.1 == info.seqIds && Within(blob, read.value.2, 8)
      && info.vTrans == (U32(blob, read.value.2) != 0) && info.nLayer == U32(blob, read.value.2 + 4)
      && ReadsLayers(blob, read.value.2 + 8, info, next)
  {
    hide Cells, Entries, U32;
    var read := Cells(blob, off, cells, hasExt, ext, [], []);
    if read.Success? {
      var (positions, seqIds, at) := read.value;
      assert read == Success((positions, seqIds, at));
      if Within(blob, at, 8) {
        var vTrans, n := U32(blob, at) != 0, U32(blob, at + 4);
        assert ReadU32(blob, at) == Success((U32(blob, at), at + 4)) && ReadU32(blob, at + 4) == Success((n, at + 8));
        var first := Entries(blob, at + 8, 0, n, KeyEntry, cells, false, []);
        if first.Success? {
          var (keys, middle) := first.value;
          assert first == Success((keys, middle));
          var second := Entries(blob, middle, 0, n, ValueEntry, cells, vTrans, keys);
          if second.Success? {
            var (layers, stop) := second.value;
            assert second == Success((layers, stop));
          }
        }
      }
    }
  }

  lemma StreamExactly(blob: bytes, hasExt: bool, ext: int, off: int, s: nat, cells: nat, info: StreamInfo, next: int)
    ensures StreamBody(blob, off, s, cells, hasExt, ext) == Success((info, next)) <==>
      IsStream(blob, hasExt, ext, off, s, cells, info, next)
  {
    hide Cells, AreCells, StreamBody, ReadsLayers, AreLayers, U32;
    StreamReads(blob, hasExt, ext, off, s, cells, info, next);
    var read := Cells(blob, off, cells, hasExt, ext, [], []);
    if read.Success? {
      var (positions, seqIds, at) := read.value;
      assert read == Success((positions, seqIds, at));
      CellsExactly(blob, hasExt, ext, off, cells, [], [], positions, seqIds, at);
      assert [] + positions == positions && [] + seqIds == seqIds;
      LayersExactly(blob, at + 8, info, next);
    }
    if IsStream(blob, hasExt, ext, off, s, cells, info, next) {
      var at :|
        && AreCells(blob, hasExt, ext, off, info.positions, info.seqIds, at) && Within(blob, at, 8)
        && info.vTrans == (U32(blob, at) != 0) && info.nLayer == U32(blob, at + 4) && AreLayers(blob, at + 8, info, next);
      CellsExactly(blob, hasExt, ext, off, cells, [], [], info.positions, info.seqIds, at);
      assert [] + info.positions == info.positions && [] + info.seqIds == info.seqIds;
      LayersExactly(blob, at + 8, info, next);
    }
  }

  /** Streams numbered from s to n; one without cells takes its count and leaves no trace. */
  ghost predicate AreStreams(blob: bytes, hasExt: bool, ext: int, off: int, s: nat, n: nat, streams: seq<StreamInfo>)
    requires s <= n
    decreases n - s, 0
  {
    if s == n then streams == [] else
    && Within(blob, off, 4)
    && if U32(blob, off) == 0 then AreStreams(blob, hasExt, ext, off + 4, s + 1, n, streams)
       else StreamAndMore(blob, hasExt, ext, off + 4, s, U32(blob, off), s + 1, n, streams)
  }

  ghost predicate StreamAndMore(
      blob: bytes, hasExt: bool, ext: int, off: int, s: nat, cells: nat, later: nat, n: nat, streams: seq<StreamInfo>)
    requires later <= n
    decreases n - later, 1
  {
    streams != [] && exists next ::
      && IsStream(blob, hasExt, ext, off, s, cells, streams[0], next)
      && AreStreams(blob, hasExt, ext, next, later, n, streams[1..])
  }

  lemma {:induction false} StreamsExactly(
      blob: bytes, hasExt: bool, ext: int, off: int, s: nat, n: nat, acc: seq<StreamInfo>, streams: seq<StreamInfo>)
    requires s <= n
    ensures Streams(blob, off, s, n, hasExt, ext, acc) == Success(acc + streams) <==> AreStreams(blob, hasExt, ext, off, s, n, streams)
    decreases n - s
  {
    hide StreamBody, IsStream, U32, StreamAndMore;
    if s == n {
      assert acc + streams == acc <==> streams == [];
    } else if Within(blob, off, 4) {
      var cells := U32(blob, off);
      assert ReadU32(blob, off) == Success((cells, off + 4));
      if cells == 0 {
        StreamsExactly(blob, hasExt, ext, off + 4, s + 1, n, acc, streams);
      } else {
        var first := StreamBody(blob, off + 4, s, cells, hasExt, ext);
        if first.Success? {
          var (info, next) := first.value;
          assert first == Success((info, next));
          StreamsExtend(blob, hasExt, ext, next, s + 1, n, acc + [info]);
          var rest := Streams(blob, next, s + 1, n, hasExt, ext, acc + [info]);
          assert Streams(blob, off, s, n, hasExt, ext, acc) == rest;
          assert rest.Success? ==> rest.value[|acc|] == (acc + [info])[|acc|] == info;
          MoreExactly(blob, hasExt, ext, off + 4, s, cells, s + 1, n, streams, info, next);
          if streams != [] {
            StreamsExactly(blob, hasExt, ext, next, s + 1, n, acc + [info], streams[1..]);
            if streams[0] == info {
              assert acc + [info] + streams[1..] == acc + streams;
            } else {
              assert (acc + streams)[|acc|] == streams[0];
            }
          } else {
            assert acc + streams == acc;
          }
        } else {
          NoMore(blob, hasExt, ext, off + 4, s, cells, s + 1, n, streams);
        }
      }
    }
  }

  lemma MoreExactly(
      blob: bytes, hasExt: bool, ext: int, off: int, s: nat, cells: nat, later: nat, n: nat, streams: seq<StreamInfo>, info: StreamInfo, next: int)
    requires later <= n && StreamBody(blob, off, s, cells, hasExt, ext) == Success((info, next))
    ensures StreamAndMore(blob, hasExt, ext, off, s, cells, later, n, streams) <==>
      streams != [] && streams[0] == info && AreStreams(blob, hasExt, ext, next, later, n, streams[1..])
  {
    hide StreamBody, IsStream, AreStreams;
    forall other, after
      ensures StreamBody(blob, off, s, cells, hasExt, ext) == Success((other, after)) <==>
        IsStream(blob, hasExt, ext, off, s, cells, other, after)
    {
      StreamExactly(blob, hasExt, ext, off, s, cells, other, after);
    }
    assert IsStream(blob, hasExt, ext, off, s, cells, info, next);
  }

  lemma NoMore(
      blob: bytes, hasExt: bool, ext: int, off: int, s: nat, cells: nat, later: nat, n: nat, streams: seq<StreamInfo>)
    requires later <= n && StreamBody(blob, off, s, cells, hasExt, ext).Failure?
    ensures !StreamAndMore(blob, hasExt, ext, off, s, cells, later, n, streams)
  {
    hide StreamBody, IsStream, AreStreams;
    forall other, after
      ensures !IsStream(blob, hasExt, ext, off, s, cells, other, after)
    {
      StreamExactly(blob, hasExt, ext, off, s, cells, other, after);
    }
  }

  lemma {:induction false} StreamsExtend(blob: bytes, hasExt: bool, ext: int, off: int, s: nat, n: nat, acc: seq<StreamInfo>)
    requires s <= n
    ensures Streams(blob, off, s, n, hasExt, ext, acc).Success? ==> acc <= Streams(blob, off, s, n, hasExt, ext, acc).value
    decreases n - s
  {
    hide StreamBody;
    if s < n && ReadU32(blob, off).Success? {
      var (cells, o) := ReadU32(blob, off).value;
      if cells == 0 {
        StreamsExtend(blob, hasExt, ext, o, s + 1, n, acc);
      } else if StreamBody(blob, o, s, cells, hasExt, ext).Success? {
        var (info, next) := StreamBody(blob, o, s, cells, hasExt, ext).value;
        StreamsExtend(blob, hasExt, ext, next, s + 1, n, acc + [info]);
      }
    }
  }

  /** The parser accepts exactly these blobs as exactly these streams; what follows the last of them does not matter. */
  lemma ParsesExactly(blob: bytes, hasExt: bool, ext: int, parsed: GgsqBlob)
    ensures ParseSpec(blob, hasExt, ext) == Success(parsed) <==>
      && |blob| >= 4 && parsed.nStream == U32(blob, 0) && parsed.totalBytes == |blob|
      && AreStreams(blob, hasExt, ext, 4, 0, parsed.nStream, parsed.streams)
  {
    hide Streams, AreStreams, U32;
    if |blob| >= 4 {
      var n := U32(blob, 0);
      assert ReadU32(blob, 0) == Success((n, 4));
      StreamsExactly(blob, hasExt, ext, 4, 0, n, [], parsed.streams);
      assert [] + parsed.streams == parsed.streams;
      var read := Streams(blob, 4, 0, n, hasExt, ext, []);
      if read.Success? {
        StreamsExactly(blob, hasExt, ext, 4, 0, n, [], read.value);
      }
    }
  }
}
