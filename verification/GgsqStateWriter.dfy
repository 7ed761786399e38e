/** Recurrent sections and checkpoint appendices laid out as the runtime writes them, and read back. */
module GgsqStateWriter {
  import opened Wrappers
  import opened Bytes
  import opened GgsqReader
  import opened GgsqWriter

  datatype RecurrentSpec = RecurrentSpec(cells: seq<CellSpec>, nLayer: nat, conv: seq<TensorSpec>, ssm: seq<TensorSpec>)

  /** One saved checkpoint: its extent, eight bytes of unknown meaning, and a recurrent state. */
  datatype CheckpointSpec = CheckpointSpec(extent: Extent, preamble: bytes, state: RecurrentSpec)

  const NO_EXTENSION: AttentionShape := AttentionShape(false, 0, None)

  predicate WritableRecurrent(s: RecurrentSpec, layers: seq<int>, singleSequence: bool) {
    && FitsU32(|s.cells|)
    && (forall i :: 0 <= i < |s.cells| ==> WritableCell(s.cells[i], NO_EXTENSION) && (singleSequence ==> s.cells[i].seqIds == []))
    && 1 <= s.nLayer <= 512 && RecurrentMap(s.nLayer, layers) == Success(layers)
    && |s.conv| == |s.ssm| == |layers|
    && WritableTensors(s.conv, |s.cells|, false) && WritableTensors(s.ssm, |s.cells|, false)
  }

  /** No stream count here, and no sequence ids in a save of one sequence. */
  function RecurrentBytes(s: RecurrentSpec, layers: seq<int>, singleSequence: bool): bytes
    requires WritableRecurrent(s, layers, singleSequence)
  {
    U32Bytes(|s.cells|) + (if s.cells == [] then [] else CellsBytes(s.cells, NO_EXTENSION) + StateBytes(s, layers, singleSequence))
  }

  function StateBytes(s: RecurrentSpec, layers: seq<int>, singleSequence: bool): bytes
    requires WritableRecurrent(s, layers, singleSequence)
  {
    U32Bytes(0) + (U32Bytes(s.nLayer) + (TensorsBytes(s.conv, |s.cells|, false) + TensorsBytes(s.ssm, |s.cells|, false)))
  }

  function ExpectedRecurrent(s: RecurrentSpec, start: nat, layers: seq<int>, singleSequence: bool): RecurrentSection
    requires WritableRecurrent(s, layers, singleSequence)
  {
    var last := start + |RecurrentBytes(s, layers, singleSequence)|;
    if s.cells == [] then RecurrentSection(1, 0, false, 0, [], [], last) else
    var convAt := start + 12 + |CellsBytes(s.cells, NO_EXTENSION)|;
    var ssmAt := convAt + |TensorsBytes(s.conv, |s.cells|, false)|;
    RecurrentSection(1, |s.cells|, false, s.nLayer, Positions(s.cells),
      SpansOf(s.conv, convAt, layers, ConvState, |s.cells|, false) + SpansOf(s.ssm, ssmAt, layers, SsmState, |s.cells|, false), last)
  }

  lemma {:induction false} RecurrentCellIsRead(f: bytes, off: nat, end: nat, c: CellSpec, singleSequence: bool)
    requires WritableCell(c, NO_EXTENSION) && (singleSequence ==> c.seqIds == [])
    requires Holds(f, off, CellBytes(c, NO_EXTENSION)) && off + |CellBytes(c, NO_EXTENSION)| <= end
    ensures RecurrentCellAt(View(f, end), off, singleSequence) == Success((c.pos, off + |CellBytes(c, NO_EXTENSION)|))
  {
    hide I32Bytes, U32Bytes, I32sBytes, Holds, I32At, U32At;
    var ids := I32sBytes(c.seqIds);
    HoldsBoth(f, off, I32Bytes(c.pos), U32Bytes(|c.seqIds|) + (c.ext + ids));
    HoldsBoth(f, off + 4, U32Bytes(|c.seqIds|), c.ext + ids);
    HoldsI32(f, off, end, c.pos);
    HoldsU32(f, off + 4, end, |c.seqIds|);
  }

  lemma {:induction false} RecurrentCellsAreRead(f: bytes, off: nat, end: nat, cells: seq<CellSpec>, singleSequence: bool, acc: seq<int>)
    requires forall i :: 0 <= i < |cells| ==> WritableCell(cells[i], NO_EXTENSION) && (singleSequence ==> cells[i].seqIds == [])
    requires Holds(f, off, CellsBytes(cells, NO_EXTENSION)) && off + |CellsBytes(cells, NO_EXTENSION)| <= end
    ensures RecurrentCellsAt(View(f, end), off, |cells|, singleSequence, acc)
         == Success((acc + Positions(cells), off + |CellsBytes(cells, NO_EXTENSION)|))
    decreases |cells|
  {
    hide CellBytes, WritableCell, RecurrentCellAt, Holds;
    if cells == [] {
      assert acc + Positions(cells) == acc;
    } else {
      HoldsBoth(f, off, CellBytes(cells[0], NO_EXTENSION), CellsBytes(cells[1..], NO_EXTENSION));
      RecurrentCellIsRead(f, off, end, cells[0], singleSequence);
      RecurrentCellsAreRead(f, off + |CellBytes(cells[0], NO_EXTENSION)|, end, cells[1..], singleSequence, acc + [cells[0].pos]);
      assert acc + [cells[0].pos] + Positions(cells[1..]) == acc + Positions(cells);
    }
  }

  /** The reader's steps after the cells. */
  lemma {:induction false} StateIsRead(f: bytes, off: nat, end: nat, s: RecurrentSpec, layers: seq<int>, singleSequence: bool)
    requires WritableRecurrent(s, layers, singleSequence)
    requires Holds(f, off, StateBytes(s, layers, singleSequence)) && off + |StateBytes(s, layers, singleSequence)| <= end
    ensures var v, n, ssmAt := View(f, end), |s.cells|, off + 8 + |TensorsBytes(s.conv, |s.cells|, false)|;
      var conv := SpansOf(s.conv, off + 8, layers, ConvState, n, false);
      && U32At(v, off) == Success((0, off + 4)) && U32At(v, off + 4) == Success((s.nLayer, off + 8))
      && SpansAt(v, off + 8, layers, ConvState, n, false, []) == Success((conv, ssmAt))
      && SpansAt(v, ssmAt, layers, SsmState, n, false, conv)
         == Success((conv + SpansOf(s.ssm, ssmAt, layers, SsmState, n, false), off + |StateBytes(s, layers, singleSequence)|))
  {
    hide U32Bytes, Holds, U32At, SpansAt, SpansOf, TensorsBytes, WritableTensors, WritableCell, RecurrentMap;
    var n := |s.cells|;
    var first, second := TensorsBytes(s.conv, n, false), TensorsBytes(s.ssm, n, false);
    HoldsBoth(f, off, U32Bytes(0), U32Bytes(s.nLayer) + (first + second));
    HoldsBoth(f, off + 4, U32Bytes(s.nLayer), first + second);
    HoldsBoth(f, off + 8, first, second);
    HoldsU32(f, off, end, 0);
    HoldsU32(f, off + 4, end, s.nLayer);
    var conv := SpansOf(s.conv, off + 8, layers, ConvState, n, false);
    TensorsAreRead(f, off + 8, end, s.conv, layers, ConvState, n, false, []);
    TensorsAreRead(f, off + 8 + |first|, end, s.ssm, layers, SsmState, n, false, conv);
    assert [] + conv == conv;
  }

  /** Round trip of a recurrent section. */
  lemma {:induction false} WrittenRecurrentIsRead(f: bytes, start: nat, end: nat, s: RecurrentSpec, layers: seq<int>, singleSequence: bool)
    requires WritableRecurrent(s, layers, singleSequence)
    requires Holds(f, start, RecurrentBytes(s, layers, singleSequence)) && start + |RecurrentBytes(s, layers, singleSequence)| <= end
    ensures RecurrentAt(f, start, end, layers, singleSequence) == Success(ExpectedRecurrent(s, start, layers, singleSequence))
  {
    hide U32Bytes, Holds, U32At, RecurrentCellsAt, SpansAt, SpansOf, CellsBytes, StateBytes, TensorsBytes, WritableTensors, WritableCell, RecurrentMap;
    var n := |s.cells|;
    var rest := if s.cells == [] then [] else CellsBytes(s.cells, NO_EXTENSION) + StateBytes(s, layers, singleSequence);
    HoldsBoth(f, start, U32Bytes(n), rest);
    HoldsU32(f, start, end, n);
    if s.cells != [] {
      var cells := CellsBytes(s.cells, NO_EXTENSION);
      HoldsBoth(f, start + 4, cells, StateBytes(s, layers, singleSequence));
      RecurrentCellsAreRead(f, start + 4, end, s.cells, singleSequence, []);
      assert [] + Positions(s.cells) == Positions(s.cells);
      StateIsRead(f, start + 4 + |cells|, end, s, layers, singleSequence);
      StateLength(s, layers, singleSequence);
    }
  }

  lemma {:induction false} StateLength(s: RecurrentSpec, layers: seq<int>, singleSequence: bool)
    requires WritableRecurrent(s, layers, singleSequence)
    ensures |StateBytes(s, layers, singleSequence)|
         == 8 + |TensorsBytes(s.conv, |s.cells|, false)| + |TensorsBytes(s.ssm, |s.cells|, false)|
  {
    hide U32Bytes, TensorsBytes, WritableTensors, WritableCell, RecurrentMap;
  }

  // The appendix

  function I64Bytes(n: int): (b: bytes)
    requires -TWO_TO_THE_63 <= n < TWO_TO_THE_63
    ensures |b| == 8
  {
    WordSizes();
    ToLe(if n >= 0 then n else n + TWO_TO_THE_64, 8)
  }

  function U64Bytes(n: nat): (b: bytes)
    requires n < TWO_TO_THE_64
    ensures |b| == 8
  {
    WordSizes();
    ToLe(n, 8)
  }

  predicate WritableCheckpoint(c: CheckpointSpec, layers: seq<int>) {
    && !c.extent.Impossible() && c.extent.nTokens < TWO_TO_THE_63 && FitsI32(c.extent.posMin) && FitsI32(c.extent.posMax)
    && |c.preamble| == CHECKPOINT_PAYLOAD_PREAMBLE
    && WritableRecurrent(c.state, layers, true)
    && |RecurrentBytes(c.state, layers, true)| <= MAX_BUFFER - CHECKPOINT_PAYLOAD_PREAMBLE
  }

  function TargetBytes(c: CheckpointSpec, layers: seq<int>): bytes
    requires WritableCheckpoint(c, layers)
  {
    c.preamble + RecurrentBytes(c.state, layers, true)
  }

  /** Extent, target buffer, and two buffers left empty. */
  function CheckpointBytes(c: CheckpointSpec, layers: seq<int>): bytes
    requires WritableCheckpoint(c, layers)
  {
    I64Bytes(c.extent.nTokens) + (I32Bytes(c.extent.posMin) + (I32Bytes(c.extent.posMax)
    + (U64Bytes(|TargetBytes(c, layers)|) + (TargetBytes(c, layers) + (U64Bytes(0) + U64Bytes(0))))))
  }

  predicate AllWritable(checkpoints: seq<CheckpointSpec>, layers: seq<int>) {
    forall i :: 0 <= i < |checkpoints| ==> WritableCheckpoint(checkpoints[i], layers)
  }

  lemma {:induction false} AllWritableParts(checkpoints: seq<CheckpointSpec>, layers: seq<int>)
    requires AllWritable(checkpoints, layers) && checkpoints != []
    ensures WritableCheckpoint(checkpoints[0], layers) && AllWritable(checkpoints[1..], layers)
  {
    hide WritableCheckpoint;
  }

  function CheckpointsBytes(checkpoints: seq<CheckpointSpec>, layers: seq<int>): bytes
    requires AllWritable(checkpoints, layers)
  {
    if checkpoints == [] then [] else
    AllWritableParts(checkpoints, layers);
    CheckpointBytes(checkpoints[0], layers) + CheckpointsBytes(checkpoints[1..], layers)
  }

  function AppendixBytes(checkpoints: seq<CheckpointSpec>, layers: seq<int>): bytes
    requires |checkpoints| <= MAX_CHECKPOINTS
    requires AllWritable(checkpoints, layers)
  {
    SCKP_MAGIC + (U32Bytes(1) + (U32Bytes(|checkpoints|) + CheckpointsBytes(checkpoints, layers)))
  }

  function ExpectedBlob(c: CheckpointSpec, off: nat, layers: seq<int>): CheckpointBlob
    requires WritableCheckpoint(c, layers)
  {
    CheckpointBlob(c.extent, ExpectedRecurrent(c.state, off + 32, layers, true), off + 24, |TargetBytes(c, layers)|)
  }

  function ExpectedBlobs(checkpoints: seq<CheckpointSpec>, off: nat, layers: seq<int>): seq<CheckpointBlob>
    requires AllWritable(checkpoints, layers)
  {
    if checkpoints == [] then [] else
    AllWritableParts(checkpoints, layers);
    [ExpectedBlob(checkpoints[0], off, layers)]
    + ExpectedBlobs(checkpoints[1..], off + |CheckpointBytes(checkpoints[0], layers)|, layers)
  }

  lemma HoldsWord(f: bytes, off: nat, end: nat, n: nat)
    requires n < TWO_TO_THE_64 && Holds(f, off, U64Bytes(n)) && off + 8 <= end
    ensures U64At(View(f, end), off) == Success((n, off + 8))
  {
    WordSizes();
    HoldsU64(f, off, end, n);
  }

  lemma {:induction false} ExtentIsRead(f: bytes, off: nat, end: nat, c: CheckpointSpec, layers: seq<int>)
    requires WritableCheckpoint(c, layers) && Holds(f, off, CheckpointBytes(c, layers)) && off + 16 <= end
    ensures ExtentAt(View(f, end), off) == Success((c.extent, off + 16))
    ensures var target := TargetBytes(c, layers);
      Holds(f, off + 16, U64Bytes(|target|)) && Holds(f, off + 24, target)
      && Holds(f, off + 24 + |target|, U64Bytes(0)) && Holds(f, off + 32 + |target|, U64Bytes(0))
  {
    hide Holds, WritableRecurrent, RecurrentBytes, TargetBytes, I32, I64, I32Bytes, I64Bytes, U64Bytes;
    CheckpointLength(c, layers);
    var target := TargetBytes(c, layers);
    var tail := U64Bytes(|target|) + (target + (U64Bytes(0) + U64Bytes(0)));
    HoldsBoth(f, off, I64Bytes(c.extent.nTokens), I32Bytes(c.extent.posMin) + (I32Bytes(c.extent.posMax) + tail));
    HoldsBoth(f, off + 8, I32Bytes(c.extent.posMin), I32Bytes(c.extent.posMax) + tail);
    HoldsBoth(f, off + 12, I32Bytes(c.extent.posMax), tail);
    HoldsBoth(f, off + 16, U64Bytes(|target|), target + (U64Bytes(0) + U64Bytes(0)));
    HoldsBoth(f, off + 24, target, U64Bytes(0) + U64Bytes(0));
    HoldsBoth(f, off + 24 + |target|, U64Bytes(0), U64Bytes(0));
    InFile(f, off + 12, I32Bytes(c.extent.posMax));
    ReadsI64(f, off, c.extent.nTokens);
    ReadsI32(f, off + 8, c.extent.posMin);
    ReadsI32(f, off + 12, c.extent.posMax);
  }

  lemma InFile(f: bytes, off: nat, b: bytes)
    requires Holds(f, off, b)
    ensures off + |b| <= |f|
  {
  }

  lemma ReadsI64(f: bytes, off: nat, n: int)
    requires -TWO_TO_THE_63 <= n < TWO_TO_THE_63 && Holds(f, off, I64Bytes(n))
    ensures I64(f, off) == n
  {
    WordSizes();
  }

  lemma ReadsI32(f: bytes, off: nat, n: int)
    requires FitsI32(n) && Holds(f, off, I32Bytes(n))
    ensures I32(f, off) == n
  {
    WordSizes();
  }

  lemma {:induction false} CheckpointLength(c: CheckpointSpec, layers: seq<int>)
    requires WritableCheckpoint(c, layers)
    ensures |CheckpointBytes(c, layers)| == 40 + |TargetBytes(c, layers)|
    ensures |TargetBytes(c, layers)| == 8 + |RecurrentBytes(c.state, layers, true)| > 8
  {
    hide I32Bytes, I64Bytes, U64Bytes, U32Bytes, CellsBytes, StateBytes, WritableTensors, WritableCell, RecurrentMap;
  }

  lemma {:induction false} CheckpointIsRead(f: bytes, off: nat, end: nat, c: CheckpointSpec, layers: seq<int>)
    requires WritableCheckpoint(c, layers)
    requires Holds(f, off, CheckpointBytes(c, layers)) && off + |CheckpointBytes(c, layers)| <= end
    ensures CheckpointAt(View(f, end), off, layers) == Success((ExpectedBlob(c, off, layers), off + |CheckpointBytes(c, layers)|))
  {
    hide Holds, WritableRecurrent, RecurrentBytes, TargetBytes, CheckpointBytes, ExtentAt, U64At, RecurrentAt, ExpectedRecurrent, U64Bytes;
    CheckpointLength(c, layers);
    ExtentIsRead(f, off, end, c, layers);
    var target := TargetBytes(c, layers);
    HoldsWord(f, off + 16, end, |target|);
    HoldsWord(f, off + 24 + |target|, end, 0);
    HoldsWord(f, off + 32 + |target|, end, 0);
    TargetIsRead(f, off + 24, c, layers);
  }

  lemma {:induction false} TargetIsRead(f: bytes, off: nat, c: CheckpointSpec, layers: seq<int>)
    requires WritableCheckpoint(c, layers) && Holds(f, off, TargetBytes(c, layers))
    ensures TargetAt(f, off, |TargetBytes(c, layers)|, layers) == Success(ExpectedRecurrent(c.state, off + 8, layers, true))
  {
    hide Holds, WritableRecurrent, RecurrentBytes, RecurrentAt, CellsBytes, StateBytes;
    CheckpointLength(c, layers);
    HoldsBoth(f, off, c.preamble, RecurrentBytes(c.state, layers, true));
    WrittenRecurrentIsRead(f, off + 8, off + |TargetBytes(c, layers)|, c.state, layers, true);
  }

  lemma {:induction false} CheckpointsAreRead(f: bytes, off: nat, end: nat, checkpoints: seq<CheckpointSpec>, layers: seq<int>, acc: seq<CheckpointBlob>)
    requires AllWritable(checkpoints, layers)
    requires Holds(f, off, CheckpointsBytes(checkpoints, layers)) && off + |CheckpointsBytes(checkpoints, layers)| <= end
    ensures CheckpointsAt(View(f, end), off, |checkpoints|, layers, acc)
         == Success((acc + ExpectedBlobs(checkpoints, off, layers), off + |CheckpointsBytes(checkpoints, layers)|))
    decreases |checkpoints|
  {
    hide Holds, AllWritable, WritableCheckpoint, CheckpointBytes, CheckpointAt, ExpectedBlob;
    if checkpoints == [] {
      assert acc + ExpectedBlobs(checkpoints, off, layers) == acc;
    } else {
      AllWritableParts(checkpoints, layers);
      var c := checkpoints[0];
      var next := off + |CheckpointBytes(c, layers)|;
      HoldsBoth(f, off, CheckpointBytes(c, layers), CheckpointsBytes(checkpoints[1..], layers));
      CheckpointIsRead(f, off, end, c, layers);
      CheckpointsAreRead(f, next, end, checkpoints[1..], layers, acc + [ExpectedBlob(c, off, layers)]);
      assert acc + [ExpectedBlob(c, off, layers)] + ExpectedBlobs(checkpoints[1..], next, layers)
          == acc + ExpectedBlobs(checkpoints, off, layers);
    }
  }

  /** Round trip of a checkpoint appendix: every extent and every state comes back, in order. */
  lemma {:induction false} WrittenAppendixIsRead(f: bytes, start: nat, end: nat, checkpoints: seq<CheckpointSpec>, layers: seq<int>)
    requires |checkpoints| <= MAX_CHECKPOINTS
    requires AllWritable(checkpoints, layers)
    requires Holds(f, start, AppendixBytes(checkpoints, layers)) && start + |AppendixBytes(checkpoints, layers)| == end
    ensures AppendixAt(f, start, end, layers) == Success(ExpectedBlobs(checkpoints, start + 12, layers))
  {
    hide U32Bytes, U32At, WritableCheckpoint, CheckpointsBytes, CheckpointsAt, ExpectedBlobs;
    var rest := CheckpointsBytes(checkpoints, layers);
    HoldsBoth(f, start, SCKP_MAGIC, U32Bytes(1) + (U32Bytes(|checkpoints|) + rest));
    HoldsBoth(f, start + 4, U32Bytes(1), U32Bytes(|checkpoints|) + rest);
    HoldsBoth(f, start + 8, U32Bytes(|checkpoints|), rest);
    HoldsU32(f, start + 4, end, 1);
    HoldsU32(f, start + 8, end, |checkpoints|);
    CheckpointsAreRead(f, start + 12, end, checkpoints, layers, []);
    assert [] + ExpectedBlobs(checkpoints, start + 12, layers) == ExpectedBlobs(checkpoints, start + 12, layers);
  }
}
