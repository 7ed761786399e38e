/** Exactly which bytes are accepted as a recurrent section and as a checkpoint appendix, and as what. */
module GgsqAcceptsState {
  import opened Wrappers
  import opened Bytes
  import opened GgsqReader
  import opened GgsqAccepts

  // Recurrent sections

  predicate IsStateCell(f: bytes, end: nat, singleSequence: bool, off: nat, pos: int, next: nat) {
    && Fits(f, end, off, 8) && pos == I32(f, off) && U32(f, off + 4) <= (if singleSequence then 0 else 64)
    && next == off + 8 + 4 * U32(f, off + 4) && next <= end
  }

  ghost predicate AreStateCells(f: bytes, end: nat, singleSequence: bool, off: nat, positions: seq<int>, stop: nat)
    decreases |positions|
  {
    if positions == [] then stop == off else
    exists next: nat ::
      IsStateCell(f, end, singleSequence, off, positions[0], next) && AreStateCells(f, end, singleSequence, next, positions[1..], stop)
  }

  lemma StateCellExactly(f: bytes, end: nat, singleSequence: bool, off: nat, pos: int, next: nat)
    ensures RecurrentCellAt(View(f, end), off, singleSequence) == Success((pos, next)) <==>
      IsStateCell(f, end, singleSequence, off, pos, next)
  {
  }

  lemma {:induction false} StateCellsExactly(
      f: bytes, end: nat, singleSequence: bool, off: nat, n: nat, acc: seq<int>, positions: seq<int>, stop: nat)
    ensures RecurrentCellsAt(View(f, end), off, n, singleSequence, acc) == Success((acc + positions, stop)) <==>
      |positions| == n && AreStateCells(f, end, singleSequence, off, positions, stop)
    decreases n
  {
    hide RecurrentCellAt, IsStateCell;
    var v := View(f, end);
    if n == 0 {
      assert acc + positions == acc <==> positions == [];
    } else {
      forall pos, next: nat
        ensures RecurrentCellAt(v, off, singleSequence) == Success((pos, next)) <==>
          IsStateCell(f, end, singleSequence, off, pos, next)
      {
        StateCellExactly(f, end, singleSequence, off, pos, next);
      }
      StateCellsExtend(v, off, n, singleSequence, acc);
      if RecurrentCellAt(v, off, singleSequence).Success? {
        var (pos, next) := RecurrentCellAt(v, off, singleSequence).value;
        assert RecurrentCellAt(v, off, singleSequence) == Success((pos, next));
        if positions != [] {
          StateCellsExactly(f, end, singleSequence, next, n - 1, acc + [pos], positions[1..], stop);
          if positions[0] == pos {
            assert acc + [pos] + positions[1..] == acc + positions;
          } else {
            assert (acc + positions)[|acc|] == positions[0];
          }
        } else {
          assert acc + positions == acc;
        }
      }
    }
  }

  lemma {:induction false} StateCellsExtend(v: View, off: nat, n: nat, singleSequence: bool, acc: seq<int>)
    ensures var r := RecurrentCellsAt(v, off, n, singleSequence, acc);
      && (r.Success? ==> acc <= r.value.0)
      && (r.Success? && n > 0 ==>
            |acc| < |r.value.0| && r.value.0[|acc|] == RecurrentCellAt(v, off, singleSequence).value.0)
    decreases n
  {
    hide RecurrentCellAt;
    if n > 0 && RecurrentCellAt(v, off, singleSequence).Success? {
      var (pos, next) := RecurrentCellAt(v, off, singleSequence).value;
      StateCellsExtend(v, next, n - 1, singleSequence, acc + [pos]);
    }
  }

  /** Convolution rows for every layer, then state rows for every layer. */
  ghost predicate AreStates(f: bytes, end: nat, off: nat, layers: seq<int>, cells: nat, spans: seq<TensorSpan>, stop: nat) {
    exists conv, ssm, middle: nat ::
      && spans == conv + ssm && AreTensors(f, end, off, layers, ConvState, cells, false, conv, middle)
      && AreTensors(f, end, middle, layers, SsmState, cells, false, ssm, stop)
  }

  ghost predicate ReadsStates(f: bytes, end: nat, off: nat, layers: seq<int>, cells: nat, spans: seq<TensorSpan>, stop: nat) {
    var first := SpansAt(View(f, end), off, layers, ConvState, cells, false, []);
    first.Success? && SpansAt(View(f, end), first.value.1, layers, SsmState, cells, false, first.value.0) == Success((spans, stop))
  }

  lemma StatesExactly(f: bytes, end: nat, off: nat, layers: seq<int>, cells: nat, spans: seq<TensorSpan>, stop: nat)
    ensures ReadsStates(f, end, off, layers, cells, spans, stop) <==> AreStates(f, end, off, layers, cells, spans, stop)
  {
    hide SpansAt, AreTensors;
    var v := View(f, end);
    if ReadsStates(f, end, off, layers, cells, spans, stop) {
      var (conv, middle) := SpansAt(v, off, layers, ConvState, cells, false, []).value;
      assert SpansAt(v, off, layers, ConvState, cells, false, []) == Success((conv, middle));
      TensorsExactly(f, end, off, layers, ConvState, cells, false, [], conv, middle);
      assert [] + conv == conv;
      TensorsExtend(v, middle, layers, SsmState, cells, false, conv);
      var ssm := spans[|conv|..];
      assert spans == conv + ssm;
      TensorsExactly(f, end, middle, layers, SsmState, cells, false, conv, ssm, stop);
    }
    if AreStates(f, end, off, layers, cells, spans, stop) {
      var conv, ssm, middle: nat :|
        && spans == conv + ssm && AreTensors(f, end, off, layers, ConvState, cells, false, conv, middle)
        && AreTensors(f, end, middle, layers, SsmState, cells, false, ssm, stop);
      TensorsExactly(f, end, off, layers, ConvState, cells, false, [], conv, middle);
      assert [] + conv == conv;
      TensorsExactly(f, end, middle, layers, SsmState, cells, false, conv, ssm, stop);
    }
  }

  /** The caller's layers are among those of the model, each once. */
  predicate AreAmong(layers: seq<int>, n: nat) {
    && (forall i :: 0 <= i < |layers| ==> 0 <= layers[i] < n)
    && forall i, j :: 0 <= i < j < |layers| ==> layers[i] != layers[j]
  }

  lemma AmongExactly(layers: seq<int>, n: nat)
    ensures RecurrentMap(n, layers).Success? <==> AreAmong(layers, n)
    ensures RecurrentMap(n, layers).Success? ==> RecurrentMap(n, layers).value == layers
  {
  }

  /** No transposition, a plausible number of layers, and the rows of the caller's layers. */
  ghost predicate IsStateBody(f: bytes, end: nat, layers: seq<int>, off: nat, section: RecurrentSection) {
    && Fits(f, end, off, 8) && U32(f, off) == 0 && !section.sTrans
    && section.nLayer == U32(f, off + 4) && 1 <= section.nLayer <= 512 && AreAmong(layers, section.nLayer)
    && AreStates(f, end, off + 8, layers, section.cellCount, section.spans, section.endOffset)
  }

  ghost predicate IsRecurrent(f: bytes, start: nat, end: nat, layers: seq<int>, singleSequence: bool, section: RecurrentSection) {
    && Fits(f, end, start, 4) && section.nStream == 1 && section.cellCount == U32(f, start)
    && if section.cellCount == 0 then section == RecurrentSection(1, 0, false, 0, [], [], start + 4)
       else
         && |section.positions| == section.cellCount
         && exists off: nat ::
              AreStateCells(f, end, singleSequence, start + 4, section.positions, off) && IsStateBody(f, end, layers, off, section)
  }

  /** The reader's steps behind the cells, as one result. */
  ghost predicate ReadsStateBody(f: bytes, end: nat, layers: seq<int>, off: nat, section: RecurrentSection) {
    var v := View(f, end);
    && U32At(v, off) == Success((0, off + 4)) && U32At(v, off + 4).Success? && !section.sTrans
    && section.nLayer == U32At(v, off + 4).value.0 && 1 <= section.nLayer <= 512 && RecurrentMap(section.nLayer, layers).Success?
    && ReadsStates(f, end, off + 8, layers, section.cellCount, section.spans, section.endOffset)
  }

  lemma StateBodyExactly(f: bytes, end: nat, layers: seq<int>, off: nat, section: RecurrentSection)
    ensures ReadsStateBody(f, end, layers, off, section) <==> IsStateBody(f, end, layers, off, section)
  {
    hide ReadsStates, AreStates, RecurrentMap, AreAmong;
    AmongExactly(layers, section.nLayer);
    StatesExactly(f, end, off + 8, layers, section.cellCount, section.spans, section.endOffset);
  }

  lemma StateReads(f: bytes, start: nat, end: nat, layers: seq<int>, singleSequence: bool, section: RecurrentSection)
    requires Fits(f, end, start, 4) && U32(f, start) > 0
    ensures
      var cells := RecurrentCellsAt(View(f, end), start + 4, U32(f, start), singleSequence, []);
      RecurrentAt(f, start, end, layers, singleSequence) == Success(section) <==>
      && section.nStream == 1 && section.cellCount == U32(f, start)
      && cells.Success? && cells.value.0 == section.positions && ReadsStateBody(f, end, layers, cells.value.1, section)
  {
    hide RecurrentCellsAt, SpansAt, RecurrentMap;
    var v, n := View(f, end), U32(f, start);
    assert U32At(v, start) == Success((n, start + 4));
    var cells := RecurrentCellsAt(v, start + 4, n, singleSequence, []);
    if cells.Success? {
      var (positions, off) := cells.value;
      assert cells == Success((positions, off));
      if U32At(v, off) == Success((0, off + 4)) && U32At(v, off + 4).Success? {
        var nLayer := U32At(v, off + 4).value.0;
        assert U32At(v, off + 4) == Success((nLayer, off + 8));
        AmongExactly(layers, nLayer);
        if 1 <= nLayer <= 512 && RecurrentMap(nLayer, layers).Success? {
          var first := SpansAt(v, off + 8, layers, ConvState, n, false, []);
          if first.Success? {
            var (conv, middle) := first.value;
            assert first == Success((conv, middle));
            var second := SpansAt(v, middle, layers, SsmState, n, false, conv);
            if second.Success? {
              var (spans, stop) := second.value;
              assert second == Success((spans, stop));
            }
          }
        }
      }
    }
  }

  /** The reader accepts exactly these bytes as exactly this recurrent section. */
  lemma RecurrentExactly(f: bytes, start: nat, end: nat, layers: seq<int>, singleSequence: bool, section: RecurrentSection)
    ensures RecurrentAt(f, start, end, layers, singleSequence) == Success(section) <==>
      IsRecurrent(f, start, end, layers, singleSequence, section)
  {
    if Fits(f, end, start, 4) && U32(f, start) > 0 {
      hide RecurrentCellsAt, AreStateCells, IsStateBody, ReadsStateBody, RecurrentAt;
      StateReads(f, start, end, layers, singleSequence, section);
      var n := U32(f, start);
      var cells := RecurrentCellsAt(View(f, end), start + 4, n, singleSequence, []);
      if cells.Success? {
        var (positions, off) := cells.value;
        assert cells == Success((positions, off));
        StateCellsExactly(f, end, singleSequence, start + 4, n, [], positions, off);
        assert [] + positions == positions;
        StateBodyExactly(f, end, layers, off, section);
      }
      if IsRecurrent(f, start, end, layers, singleSequence, section) {
        var off: nat :|
          AreStateCells(f, end, singleSequence, start + 4, section.positions, off) && IsStateBody(f, end, layers, off, section);
        StateCellsExactly(f, end, singleSequence, start + 4, n, [], section.positions, off);
        assert [] + section.positions == section.positions;
        StateBodyExactly(f, end, layers, off, section);
      }
    } else {
      hide RecurrentCellsAt, AreStateCells, IsStateBody, SpansAt, RecurrentMap;
    }
  }

  // The appendix

  predicate IsExtent(f: bytes, off: nat, extent: Extent)
    requires off + 16 <= |f|
  {
    && extent == Extent(I64(f, off), I32(f, off + 8), I32(f, off + 12))
    && 0 <= extent.nTokens && 0 <= extent.posMin <= extent.posMax
  }

  /** An extent, a buffer of a preamble and a recurrent section that fills it, and two empty buffers. */
  ghost predicate IsRecord(f: bytes, end: nat, layers: seq<int>, off: nat, blob: CheckpointBlob, next: nat) {
    && Fits(f, end, off, 24) && IsExtent(f, off, blob.extent)
    && blob.targetOffset == off + 24 && blob.targetNbytes == U64(f, off + 16) && 8 < blob.targetNbytes <= 0x4_0000_0000
    && var last := off + 24 + blob.targetNbytes;
    && Fits(f, end, last, 16) && U64(f, last) == 0 && U64(f, last + 8) == 0 && next == last + 16
    && blob.target.endOffset == last && IsRecurrent(f, off + 32, last, layers, true, blob.target)
  }

  ghost predicate AreRecords(f: bytes, end: nat, layers: seq<int>, off: nat, blobs: seq<CheckpointBlob>, stop: nat)
    decreases |blobs|
  {
    if blobs == [] then stop == off else
    exists next: nat :: IsRecord(f, end, layers, off, blobs[0], next) && AreRecords(f, end, layers, next, blobs[1..], stop)
  }

  /** Magic, version, count and as many records, to the very end. */
  ghost predicate IsAppendix(f: bytes, start: nat, end: nat, layers: seq<int>, blobs: seq<CheckpointBlob>) {
    && Fits(f, end, start, 12) && f[start..start + 4] == [0x53, 0x43, 0x4B, 0x50]
    && U32(f, start + 4) == 1 && U32(f, start + 8) == |blobs| <= 1024
    && AreRecords(f, end, layers, start + 12, blobs, end)
  }

  lemma RecordExactly(f: bytes, end: nat, layers: seq<int>, off: nat, blob: CheckpointBlob, next: nat)
    ensures CheckpointAt(View(f, end), off, layers) == Success((blob, next)) <==> IsRecord(f, end, layers, off, blob, next)
  {
    hide RecurrentAt, IsRecurrent, IsExtent, ExtentAt, BufferAt, ExtentIn;
    var v := View(f, end);
    ExtentExactly(f, end, off);
    if Fits(f, end, off, 24) {
      var length := U64(f, off + 16);
      var last := off + 24 + length;
      BufferIs(v, off + 16);
      BufferIs(v, last);
      BufferIs(v, last + 8);
      if length > 8 {
        RecurrentExactly(f, off + 32, last, layers, true, blob.target);
      }
      RecordReads(f, end, layers, off, blob, next);
    } else {
      BufferIs(v, off + 16);
    }
  }

  lemma ExtentExactly(f: bytes, end: nat, off: nat)
    ensures ExtentAt(View(f, end), off).Success? <==> Fits(f, end, off, 16) && !ExtentIn(f, off).Impossible()
    ensures ExtentAt(View(f, end), off).Success? ==> ExtentAt(View(f, end), off).value == (ExtentIn(f, off), off + 16)
    ensures off + 16 <= |f| ==> forall extent :: IsExtent(f, off, extent) <==> extent == ExtentIn(f, off) && !extent.Impossible()
  {
    hide I64, I32;
  }

  lemma BufferIs(v: View, off: nat)
    ensures BufferAt(v, off).Success? <==>
      Fits(v.file, v.end, off, 8) && U64(v.file, off) <= MAX_BUFFER && off + 8 + U64(v.file, off) <= v.end
    ensures BufferAt(v, off).Success? ==> BufferAt(v, off).value == (off + 8, U64(v.file, off), off + 8 + U64(v.file, off))
  {
    hide U64;
  }

  /** The reader's steps over one record. */
  lemma RecordReads(f: bytes, end: nat, layers: seq<int>, off: nat, blob: CheckpointBlob, next: nat)
    requires Fits(f, end, off, 24)
    ensures
      var v, length := View(f, end), U64(f, off + 16);
      var last := off + 24 + length;
      CheckpointAt(v, off, layers) == Success((blob, next)) <==>
      && ExtentAt(v, off).Success? && blob.extent == ExtentIn(f, off)
      && BufferAt(v, off + 16).Success? && BufferAt(v, last) == Success((last + 8, 0, last + 8))
      && BufferAt(v, last + 8) == Success((last + 16, 0, last + 16)) && next == last + 16 && length > 8
      && RecurrentAt(f, off + 32, last, layers, true) == Success(blob.target) && blob.target.endOffset == last
      && blob.targetOffset == off + 24 && blob.targetNbytes == length
  {
    hide RecurrentAt, ExtentAt, BufferAt, ExtentIn;
    var v := View(f, end);
    var length := U64(f, off + 16);
    var last := off + 24 + length;
    ExtentExactly(f, end, off);
    BufferIs(v, off + 16);
    BufferIs(v, last);
    if BufferAt(v, last).Success? {
      BufferIs(v, last + 8 + U64(f, last));
    }
    if length > 8 && RecurrentAt(f, off + 32, last, layers, true).Success? {
      var target := RecurrentAt(f, off + 32, last, layers, true).value;
      assert RecurrentAt(f, off + 32, last, layers, true) == Success(target);
    }
  }

  lemma {:induction false} RecordsExactly(
      f: bytes, end: nat, layers: seq<int>, off: nat, n: nat, acc: seq<CheckpointBlob>, blobs: seq<CheckpointBlob>, stop: nat)
    ensures CheckpointsAt(View(f, end), off, n, layers, acc) == Success((acc + blobs, stop)) <==>
      |blobs| == n && AreRecords(f, end, layers, off, blobs, stop)
    decreases n
  {
    hide CheckpointAt, IsRecord;
    var v := View(f, end);
    if n == 0 {
      assert acc + blobs == acc <==> blobs == [];
    } else {
      forall blob, next: nat
        ensures CheckpointAt(v, off, layers) == Success((blob, next)) <==> IsRecord(f, end, layers, off, blob, next)
      {
        RecordExactly(f, end, layers, off, blob, next);
      }
      RecordsExtend(v, off, n, layers, acc);
      if CheckpointAt(v, off, layers).Success? {
        var (blob, next) := CheckpointAt(v, off, layers).value;
        assert CheckpointAt(v, off, layers) == Success((blob, next));
        if blobs != [] {
          RecordsExactly(f, end, layers, next, n - 1, acc + [blob], blobs[1..], stop);
          if blobs[0] == blob {
            assert acc + [blob] + blobs[1..] == acc + blobs;
          } else {
            assert (acc + blobs)[|acc|] == blobs[0];
          }
        } else {
          assert acc + blobs == acc;
        }
      }
    }
  }

  lemma {:induction false} RecordsExtend(v: View, off: nat, n: nat, layers: seq<int>, acc: seq<CheckpointBlob>)
    ensures var r := CheckpointsAt(v, off, n, layers, acc);
      && (r.Success? ==> acc <= r.value.0)
      && (r.Success? && n > 0 ==> |acc| < |r.value.0| && r.value.0[|acc|] == CheckpointAt(v, off, layers).value.0)
    decreases n
  {
    hide CheckpointAt;
    if n > 0 && CheckpointAt(v, off, layers).Success? {
      var (blob, next) := CheckpointAt(v, off, layers).value;
      RecordsExtend(v, next, n - 1, layers, acc + [blob]);
    }
  }

  /** The reader accepts exactly these bytes as exactly these checkpoints. */
  lemma AppendixExactly(f: bytes, start: nat, end: nat, layers: seq<int>, blobs: seq<CheckpointBlob>)
    ensures AppendixAt(f, start, end, layers) == Success(blobs) <==> IsAppendix(f, start, end, layers, blobs)
  {
    hide CheckpointsAt, AreRecords;
    var v := View(f, end);
    if Fits(f, end, start, 12) && U32(f, start + 8) <= 1024 {
      var n := U32(f, start + 8);
      RecordsExactly(f, end, layers, start + 12, n, [], blobs, end);
      assert [] + blobs == blobs;
      var read := CheckpointsAt(v, start + 12, n, layers, []);
      if read.Success? {
        var (found, stop) := read.value;
        assert read == Success((found, stop));
      }
    }
  }
}
