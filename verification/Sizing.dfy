/** How large a saved sequence state will be, derived from the format. */
module Sizing {
  import opened Wrappers
  import opened Sequences
  import G = GgsqReader

  const FILE_HEADER := 12
  const BYTES_PER_HEADER_TOKEN := 4
  const SECTION_HEADER := 8
  const BYTES_PER_CELL_META := 12
  const DATA_HEADER := 8
  const BYTES_PER_TENSOR_HEADER := 12
  const BYTES_PER_CELL_EXT := 12
  const RECURRENT_SECTION_HEADER := 4
  const BYTES_PER_RECURRENT_CELL_META := 8
  const RECURRENT_DATA_HEADER := 8
  const CHECKPOINT_APPENDIX_HEADER := 12
  const BYTES_PER_CHECKPOINT_RECORD := 16
  const BYTES_PER_CHECKPOINT_BUFFER_LENGTH := 8

  datatype SizingError =
    | UnsupportedArchitecture
    | ConditionalCellExt
    | BadGeometry
    | NegativeCells
    | NegativeTokens
    | NegativeCheckpoints
    | UnknownType
    | PartialBlock
    | SlidingCountMissing
    | SlidingCountWithoutLayers
    | SlidingCountRange
    | CheckpointsWithoutSliding
    | CheckpointRange
    | NotStandardWindow

  // ---------------------------------------------------------------------------
  // Architectures
  // ---------------------------------------------------------------------------

  const HYBRID_ARCHITECTURES: set<string> := {
    "jamba", "falcon-h1", "plamo2", "granitehybrid", "lfm2", "lfm2moe", "nemotron_h", "nemotron_h_moe", "qwen3next",
    "kimi-linear", "bailingmoe3", "kimi-k3", "qwen35", "qwen35moe", "qwen4exp", "deepseek4", "minimax-01"}

  const RECURRENT_ARCHITECTURES: set<string> := {"mamba", "mamba2", "rwkv6", "rwkv6qwen2", "rwkv7", "arwkv7"}

  const CELL_EXT_ARCHITECTURES: set<string> := {
    "qwen2vl", "qwen3vl", "qwen3vlmoe", "qwen35", "qwen35moe", "qwen3tts", "qwen4exp", "paddleocr"}

  const CONDITIONAL_CELL_EXT_ARCHITECTURES: set<string> := {"glm4", "glm4moe", "hunyuan_vl", "dflash"}

  const STANDARD_SWA_ARCHITECTURES: set<string> := {"gemma4", "gemma4-assistant"}

  predicate Refused(architecture: string) {
    architecture in HYBRID_ARCHITECTURES || architecture in RECURRENT_ARCHITECTURES
  }

  function WritesCellExt(architecture: string): Result<bool, SizingError> {
    if architecture in CONDITIONAL_CELL_EXT_ARCHITECTURES then Failure(ConditionalCellExt)
    else Success(architecture in CELL_EXT_ARCHITECTURES)
  }

  function PerCell(architecture: string): Result<nat, SizingError> {
    var ext :- WritesCellExt(architecture);
    Success(if ext then BYTES_PER_CELL_META + BYTES_PER_CELL_EXT else BYTES_PER_CELL_META)
  }

  // ---------------------------------------------------------------------------
  // Row sizes by type name
  // ---------------------------------------------------------------------------

  /** The type ids of the reader's table, in its order. */
  const TYPE_IDS: seq<int> := [0, 1, 2, 3, 6, 7, 8, 9, 30]

  function TypeNamed(name: string, ids: seq<int>): Option<G.GgmlType> {
    if ids == [] then None
    else if G.TypeById(ids[0]).Some? && G.TypeById(ids[0]).value.name == name then G.TypeById(ids[0])
    else TypeNamed(name, ids[1..])
  }

  function RowSize(typeName: string, elements: int): (r: Result<nat, SizingError>)
    requires elements >= 0
  {
    match TypeNamed(typeName, TYPE_IDS)
    case None => Failure(UnknownType)
    case Some(t) =>
      if t.block == 0 || elements % t.block != 0 then Failure(PartialBlock) else Success(elements / t.block * t.perBlock)
  }

  method ComputeRowSize(typeName: string, elements: nat) returns (r: Result<nat, SizingError>)
    ensures r == RowSize(typeName, elements)
  {
    for i := 0 to |TYPE_IDS|
      invariant TypeNamed(typeName, TYPE_IDS) == TypeNamed(typeName, TYPE_IDS[i..])
    {
      assert TYPE_IDS[i..][1..] == TYPE_IDS[i + 1..];
      var t := G.TypeById(TYPE_IDS[i]);
      if t.Some? && t.value.name == typeName {
        if t.value.block == 0 || elements % t.value.block != 0 { return Failure(PartialBlock); }
        return Success(elements / t.value.block * t.value.perBlock);
      }
    }
    return Failure(UnknownType);
  }

  // ---------------------------------------------------------------------------
  // Geometries
  // ---------------------------------------------------------------------------

  datatype KVGeometry = KVGeometry(nLayer: int, nKvHead: int, headDim: int, architecture: string, valueHeadDim: Option<int>) {
    function ValueDim(): int {
      if valueHeadDim.None? then headDim else valueHeadDim.value
    }

    predicate Valid() {
      nLayer > 0 && nKvHead > 0 && headDim > 0 && ValueDim() > 0
    }

    function KeyElements(): (n: int)
      ensures Valid() ==> n > 0
    {
      nKvHead * headDim
    }

    function ValueElements(): (n: int)
      ensures Valid() ==> n > 0
    {
      nKvHead * ValueDim()
    }

    /** The same model as a per-layer geometry: every layer identical, none sliding. */
    function Layered(): LayeredGeometry {
      LayeredGeometry(
        seq(Max(nLayer, 0), i => LayerKV(i, nKvHead, headDim, ValueDim(), false)), architecture, 0)
    }
  }

  datatype LayerKV = LayerKV(index: int, nKvHead: int, headDim: int, valueHeadDim: int, sliding: bool) {
    predicate Valid() {
      nKvHead > 0 && headDim > 0 && valueHeadDim > 0
    }

    function KeyElements(): (n: int)
      ensures Valid() ==> n > 0
    {
      nKvHead * headDim
    }

    function ValueElements(): (n: int)
      ensures Valid() ==> n > 0
    {
      nKvHead * valueHeadDim
    }
  }

  predicate AllValid(layers: seq<LayerKV>) {
    forall i :: 0 <= i < |layers| ==> layers[i].Valid()
  }

  predicate Slides(layer: LayerKV) {
    layer.sliding
  }

  predicate StaysFull(layer: LayerKV) {
    !layer.sliding
  }

  lemma FilterKeepsValid(layers: seq<LayerKV>, keep: LayerKV -> bool)
    ensures AllValid(layers) ==> AllValid(Filter(layers, keep))
  {
    var kept := Filter(layers, keep);
    if AllValid(layers) {
      forall i | 0 <= i < |kept|
        ensures kept[i].Valid()
      {
        FilterIn(layers, keep, kept[i]);
      }
    }
  }

  datatype LayeredGeometry = LayeredGeometry(layers: seq<LayerKV>, architecture: string, slidingWindow: int) {
    function Base(): (r: seq<LayerKV>)
      ensures Valid() ==> AllValid(r)
    {
      FilterKeepsValid(layers, StaysFull);
      Filter(layers, StaysFull)
    }

    function Sliding(): (r: seq<LayerKV>)
      ensures Valid() ==> AllValid(r)
    {
      FilterKeepsValid(layers, Slides);
      Filter(layers, Slides)
    }

    predicate Valid() {
      && layers != [] && AllValid(layers)
      && (forall i, j :: 0 <= i < j < |layers| ==> layers[i].index != layers[j].index)
      && (Filter(layers, Slides) != [] ==> slidingWindow > 0)
      && (slidingWindow != 0 ==> Filter(layers, Slides) != [])
    }
  }

  datatype HybridGeometry = HybridGeometry(
    attentionLayers: int, recurrentLayers: int, nKvHead: int, headDim: int,
    convRowBytes: int, ssmRowBytes: int, architecture: string, valueHeadDim: Option<int>)
  {
    function Attention(): KVGeometry {
      KVGeometry(attentionLayers, nKvHead, headDim, architecture, valueHeadDim)
    }
  }

  // ---------------------------------------------------------------------------
  // The size laws
  // ---------------------------------------------------------------------------

  function Tokens(cells: int, headerTokens: Option<int>): int {
    if headerTokens.None? then cells else headerTokens.value
  }

  /** A uniform, non-hybrid, single-stream file. */
  function StateBytes(g: KVGeometry, cells: int, kvType: string, headerTokens: Option<int>): Result<int, SizingError> {
    if Refused(g.architecture) then Failure(UnsupportedArchitecture)
    else if !g.Valid() then Failure(BadGeometry)
    else if cells < 0 then Failure(NegativeCells)
    else if Tokens(cells, headerTokens) < 0 then Failure(NegativeTokens)
    else
      var kRow :- RowSize(kvType, g.KeyElements());
      var vRow :- RowSize(kvType, g.ValueElements());
      var body := SECTION_HEADER + BYTES_PER_CELL_META * cells + DATA_HEADER
                  + g.nLayer * (2 * BYTES_PER_TENSOR_HEADER + cells * (kRow + vRow));
      Success(FILE_HEADER + BYTES_PER_HEADER_TOKEN * Tokens(cells, headerTokens) + body)
  }

  function RecurrentBytes(g: HybridGeometry, recurrentCells: int): int {
    RECURRENT_SECTION_HEADER + BYTES_PER_RECURRENT_CELL_META * recurrentCells + RECURRENT_DATA_HEADER
    + g.recurrentLayers * (2 * BYTES_PER_TENSOR_HEADER + recurrentCells * (g.convRowBytes + g.ssmRowBytes))
  }

  function AppendixBytes(g: HybridGeometry, checkpoints: int, recurrentCells: int): int {
    if checkpoints == 0 then 0 else
    CHECKPOINT_APPENDIX_HEADER + checkpoints * (
      BYTES_PER_CHECKPOINT_RECORD + 3 * BYTES_PER_CHECKPOINT_BUFFER_LENGTH
      + (G.CHECKPOINT_PAYLOAD_PREAMBLE + RecurrentBytes(g, recurrentCells)))
  }

  function HybridAttentionBytes(g: HybridGeometry, cells: nat, kvType: string): Result<int, SizingError>
    requires g.Attention().Valid()
  {
    var perCell :- PerCell(g.architecture);
    var kRow :- RowSize(kvType, g.Attention().KeyElements());
    var vRow :- RowSize(kvType, g.Attention().ValueElements());
    Success(SECTION_HEADER + perCell * cells + DATA_HEADER
            + g.attentionLayers * (2 * BYTES_PER_TENSOR_HEADER + cells * (kRow + vRow)))
  }

  /** A hybrid file: header, attention section, recurrent tail, and an appendix when checkpoints are persisted. */
  function HybridStateBytes(g: HybridGeometry, cells: int, checkpoints: int, kvType: string, headerTokens: Option<int>, recurrentCells: int)
    : Result<int, SizingError>
  {
    if checkpoints < 0 then Failure(NegativeCheckpoints)
    else if !g.Attention().Valid() || g.recurrentLayers < 0 || Min(g.convRowBytes, g.ssmRowBytes) <= 0 || recurrentCells < 1
    then Failure(BadGeometry)
    else if cells < 0 then Failure(NegativeCells)
    else if Tokens(cells, headerTokens) < 0 then Failure(NegativeTokens)
    else
      var attention :- HybridAttentionBytes(g, cells, kvType);
      Success(FILE_HEADER + BYTES_PER_HEADER_TOKEN * Tokens(cells, headerTokens) + attention
              + RecurrentBytes(g, recurrentCells) + AppendixBytes(g, checkpoints, recurrentCells))
  }

  function SlidingCells(g: LayeredGeometry, cells: int): Result<int, SizingError> {
    if g.Sliding() == [] then Failure(SlidingCountWithoutLayers)
    else if g.architecture !in STANDARD_SWA_ARCHITECTURES then Failure(NotStandardWindow)
    else if cells < 0 then Failure(NegativeCells)
    else Success(Min(cells, g.slidingWindow))
  }

  /** What one layer adds to a section of `cells` cells. */
  function LayerBytes(layer: LayerKV, cells: nat, kvType: string): Result<nat, SizingError>
    requires layer.Valid()
  {
    var kRow :- RowSize(kvType, layer.KeyElements());
    var vRow :- RowSize(kvType, layer.ValueElements());
    Success(2 * BYTES_PER_TENSOR_HEADER + cells * (kRow + vRow))
  }

  function LayersBytes(layers: seq<LayerKV>, cells: nat, kvType: string, total: nat): Result<nat, SizingError>
    requires AllValid(layers)
  {
    if layers == [] then Success(total) else
    var bytes :- LayerBytes(layers[0], cells, kvType);
    LayersBytes(layers[1..], cells, kvType, total + bytes)
  }

  /** One attention section; with no cells it is the two counts and nothing else. */
  function SectionBytes(layers: seq<LayerKV>, cells: nat, kvType: string, perCell: nat): Result<nat, SizingError>
    requires AllValid(layers)
  {
    if cells == 0 then Success(SECTION_HEADER)
    else LayersBytes(layers, cells, kvType, SECTION_HEADER + perCell * cells + DATA_HEADER)
  }

  method AttentionSectionBytes(layers: seq<LayerKV>, cells: nat, kvType: string, perCell: nat) returns (r: Result<nat, SizingError>)
    requires AllValid(layers)
    ensures r == SectionBytes(layers, cells, kvType, perCell)
  {
    hide RowSize;
    var total: nat := SECTION_HEADER;
    if cells == 0 { return Success(total); }
    total := total + perCell * cells + DATA_HEADER;
    for i := 0 to |layers|
      invariant SectionBytes(layers, cells, kvType, perCell) == LayersBytes(layers[i..], cells, kvType, total)
    {
      assert layers[i..][1..] == layers[i + 1..];
      var kRow :- RowSize(kvType, layers[i].KeyElements());
      var vRow :- RowSize(kvType, layers[i].ValueElements());
      total := total + (2 * BYTES_PER_TENSOR_HEADER + cells * (kRow + vRow));
    }
    return Success(total);
  }

  function CheckpointSections(sliding: seq<LayerKV>, counts: seq<int>, kvType: string, perCell: nat, total: nat): Result<nat, SizingError>
    requires AllValid(sliding) && forall i :: 0 <= i < |counts| ==> counts[i] >= 0
  {
    if counts == [] then Success(total) else
    var section :- SectionBytes(sliding, counts[0], kvType, perCell);
    CheckpointSections(sliding, counts[1..], kvType, perCell,
      total + BYTES_PER_CHECKPOINT_RECORD + 3 * BYTES_PER_CHECKPOINT_BUFFER_LENGTH + G.CHECKPOINT_PAYLOAD_PREAMBLE + section)
  }

  /** A file whose layers need not share a geometry: the base section, then the sliding section when there is one. */
  function LayeredStateBytes(g: LayeredGeometry, cells: int, checkpointCells: seq<int>, slidingCount: Option<int>,
                             kvType: string, headerTokens: Option<int>): Result<int, SizingError>
  {
    var swaCells := if slidingCount.None? then 0 else slidingCount.value;
    if Refused(g.architecture) then Failure(UnsupportedArchitecture)
    else if !g.Valid() then Failure(BadGeometry)
    else if cells < 0 then Failure(NegativeCells)
    else if Tokens(cells, headerTokens) < 0 then Failure(NegativeTokens)
    else if g.Sliding() != [] && slidingCount.None? then Failure(SlidingCountMissing)
    else if slidingCount.Some? && g.Sliding() == [] then Failure(SlidingCountWithoutLayers)
    else if swaCells < 0 || swaCells > cells then Failure(SlidingCountRange)
    else if checkpointCells != [] && g.Sliding() == [] then Failure(CheckpointsWithoutSliding)
    else if exists i :: 0 <= i < |checkpointCells| && !(0 <= checkpointCells[i] <= swaCells) then Failure(CheckpointRange)
    else
      var perCell :- PerCell(g.architecture);
      var base :- SectionBytes(g.Base(), cells, kvType, perCell);
      var sliding :- if g.Sliding() == [] then Success(0) else SectionBytes(g.Sliding(), swaCells, kvType, perCell);
      var appendix :- if checkpointCells == [] then Success(0)
                      else CheckpointSections(g.Sliding(), checkpointCells, kvType, perCell, CHECKPOINT_APPENDIX_HEADER);
      Success(FILE_HEADER + BYTES_PER_HEADER_TOKEN * Tokens(cells, headerTokens) + (base + sliding) + appendix)
  }

  // ---------------------------------------------------------------------------
  // Laws about the laws
  // ---------------------------------------------------------------------------

  /** The names in the sizing table denote the ids in the reader's. */
  lemma RowSizesAgree(id: int, elements: nat)
    requires G.TypeById(id).Some?
    ensures RowSize(G.TypeById(id).value.name, elements).Success? <==> G.RowSize(id, elements).Success?
    ensures G.RowSize(id, elements).Success? ==>
      RowSize(G.TypeById(id).value.name, elements).value == G.RowSize(id, elements).value
  {
    NamesDistinct(id, 0);
  }

  lemma {:induction false} NamesDistinct(id: int, from: nat)
    requires G.TypeById(id).Some? && from <= |TYPE_IDS|
    requires id in TYPE_IDS[from..]
    ensures TypeNamed(G.TypeById(id).value.name, TYPE_IDS[from..]) == G.TypeById(id)
    decreases |TYPE_IDS| - from
  {
    var ids := TYPE_IDS[from..];
    assert ids[1..] == TYPE_IDS[from + 1..];
    if ids[0] != id {
      NamesDiffer(ids[0], id);
      NamesDistinct(id, from + 1);
    }
  }

  lemma NamesDiffer(a: int, b: int)
    requires a != b && G.TypeById(a).Some? && G.TypeById(b).Some?
    ensures G.TypeById(a).value.name != G.TypeById(b).value.name
  {
    var x, y := G.TypeById(a).value.name, G.TypeById(b).value.name;
    assert |x| != |y| || x[0] != y[0] || x[1] != y[1] || x[|x| - 1] != y[|y| - 1];
  }

  /** Position p of a contiguous sequence survives a standard window: it is less than a window behind the last. */
  predicate Kept(p: int, cells: int, window: int) {
    (cells - 1) - p < window
  }

  /** min(cells, window) is how many positions a standard window keeps. */
  lemma SlidingCellsAreKept(g: LayeredGeometry, cells: nat)
    requires g.Valid() && SlidingCells(g, cells).Success?
    ensures SlidingCells(g, cells).value == |set p | 0 <= p < cells && Kept(p, cells, g.slidingWindow)|
  {
    var lo := cells - Min(cells, g.slidingWindow);
    assert (set p | 0 <= p < cells && Kept(p, cells, g.slidingWindow)) == Interval(lo, cells);
  }

  ghost function Interval(lo: nat, hi: nat): (s: set<int>)
    requires lo <= hi
    ensures |s| == hi - lo && forall p :: p in s <==> lo <= p < hi
    decreases hi - lo
  {
    if lo == hi then {} else Interval(lo, hi - 1) + {hi - 1}
  }
}
