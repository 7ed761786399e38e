/** When a predicted size is refused and why: `kv_rosetta/sizing.py`. */
module SizingChecks {
  import opened Wrappers
  import opened Sequences
  import opened Sizing
  import G = GgsqReader

  // ---------------------------------------------------------------------------
  // Rows
  // ---------------------------------------------------------------------------

  /** What 32 elements of a type take. */
  const BYTES_OF_32: map<string, nat> := map[
    "f32" := 128, "f16" := 64, "bf16" := 64, "q4_0" := 18, "q4_1" := 20,
    "q5_0" := 22, "q5_1" := 24, "q8_0" := 34, "q8_1" := 40]

  predicate Known(kvType: string) {
    kvType in BYTES_OF_32
  }

  /** Rows that end inside a block have no size; three of the types have no blocks. */
  predicate Whole(kvType: string, elements: int) {
    kvType == "f32" || kvType == "f16" || kvType == "bf16" || elements % 32 == 0
  }

  lemma {:induction false} NamedIn(name: string, from: nat)
    requires from <= |TYPE_IDS|
    ensures TypeNamed(name, TYPE_IDS[from..]) ==
      if from == |TYPE_IDS| then None
      else if G.TypeById(TYPE_IDS[from]).value.name == name then G.TypeById(TYPE_IDS[from])
      else TypeNamed(name, TYPE_IDS[from + 1..])
  {
    if from < |TYPE_IDS| {
      assert TYPE_IDS[from..][1..] == TYPE_IDS[from + 1..];
      assert G.TypeById(TYPE_IDS[from]).Some?;
    }
  }

  lemma Named(name: string)
    ensures TypeNamed(name, TYPE_IDS) ==
      if name == "f32" then Some(G.GgmlType(name, 1, 4)) else if name == "f16" then Some(G.GgmlType(name, 1, 2))
      else if name == "q4_0" then Some(G.GgmlType(name, 32, 18)) else if name == "q4_1" then Some(G.GgmlType(name, 32, 20))
      else if name == "q5_0" then Some(G.GgmlType(name, 32, 22)) else if name == "q5_1" then Some(G.GgmlType(name, 32, 24))
      else if name == "q8_0" then Some(G.GgmlType(name, 32, 34)) else if name == "q8_1" then Some(G.GgmlType(name, 32, 40))
      else if name == "bf16" then Some(G.GgmlType(name, 1, 2)) else None
  {
    hide TypeNamed;
    assert TYPE_IDS == TYPE_IDS[0..];
    NamedIn(name, 0); NamedIn(name, 1); NamedIn(name, 2); NamedIn(name, 3); NamedIn(name, 4);
    NamedIn(name, 5); NamedIn(name, 6); NamedIn(name, 7); NamedIn(name, 8); NamedIn(name, 9);
  }

  /** A row has a size if and only if its type is known and it is whole blocks; the size is its share of 32 elements. */
  lemma RowSizeExactly(kvType: string, elements: nat, size: nat)
    ensures RowSize(kvType, elements) == Success(size) <==>
      Known(kvType) && Whole(kvType, elements) && 32 * size == elements * BYTES_OF_32[kvType]
    ensures RowSize(kvType, elements) == Failure(UnknownType) <==> !Known(kvType)
    ensures RowSize(kvType, elements) == Failure(PartialBlock) <==> Known(kvType) && !Whole(kvType, elements)
  {
    hide TypeNamed;
    Named(kvType);
  }

  // ---------------------------------------------------------------------------
  // Sections
  // ---------------------------------------------------------------------------

  predicate WholeLayer(kvType: string, layer: LayerKV) {
    Whole(kvType, layer.nKvHead * layer.headDim) && Whole(kvType, layer.nKvHead * layer.valueHeadDim)
  }

  ghost predicate Sizes(kvType: string, layers: seq<LayerKV>) {
    layers == [] || (Known(kvType) && forall l :: l in layers ==> WholeLayer(kvType, l))
  }

  function RowError(kvType: string): SizingError {
    if Known(kvType) then PartialBlock else UnknownType
  }

  lemma LayerExactly(layer: LayerKV, cells: nat, kvType: string)
    requires layer.Valid()
    ensures LayerBytes(layer, cells, kvType).Success? <==> Known(kvType) && WholeLayer(kvType, layer)
    ensures LayerBytes(layer, cells, kvType).Failure? ==> LayerBytes(layer, cells, kvType).error == RowError(kvType)
  {
    hide RowSize, Known, Whole;
    var key, value := RowSize(kvType, layer.KeyElements()), RowSize(kvType, layer.ValueElements());
    RowSizeExactly(kvType, layer.KeyElements(), if key.Success? then key.value else 0);
    RowSizeExactly(kvType, layer.ValueElements(), if value.Success? then value.value else 0);
    RowFails(kvType, layer.KeyElements());
    RowFails(kvType, layer.ValueElements());
  }

  lemma RowFails(kvType: string, elements: nat)
    ensures var r := RowSize(kvType, elements); r.Failure? ==> r.error == UnknownType || r.error == PartialBlock
    ensures RowSize(kvType, elements).Success? <==> Known(kvType) && Whole(kvType, elements)
  {
    hide TypeNamed;
    Named(kvType);
  }

  lemma {:induction false} LayersExactly(layers: seq<LayerKV>, cells: nat, kvType: string, total: nat)
    requires AllValid(layers)
    ensures var r := LayersBytes(layers, cells, kvType, total);
      && (r.Success? <==> Sizes(kvType, layers))
      && (r.Failure? ==> r.error == RowError(kvType))
    decreases |layers|
  {
    hide LayerBytes, WholeLayer, Known;
    if layers != [] {
      LayerExactly(layers[0], cells, kvType);
      assert layers == [layers[0]] + layers[1..];
      if LayerBytes(layers[0], cells, kvType).Success? {
        LayersExactly(layers[1..], cells, kvType, total + LayerBytes(layers[0], cells, kvType).value);
      }
    }
  }

  lemma SectionExactly(layers: seq<LayerKV>, cells: nat, kvType: string, perCell: nat)
    requires AllValid(layers)
    ensures var r := SectionBytes(layers, cells, kvType, perCell);
      && (r.Success? <==> cells == 0 || Sizes(kvType, layers))
      && (r.Failure? ==> r.error == RowError(kvType))
  {
    if cells > 0 {
      LayersExactly(layers, cells, kvType, SECTION_HEADER + perCell * cells + DATA_HEADER);
    }
  }

  lemma {:induction false} CheckpointsExactly(sliding: seq<LayerKV>, counts: seq<int>, kvType: string, perCell: nat, total: nat)
    requires AllValid(sliding) && forall i :: 0 <= i < |counts| ==> counts[i] >= 0
    ensures var r := CheckpointSections(sliding, counts, kvType, perCell, total);
      && (r.Success? <==> (exists n :: n in counts && n > 0) ==> Sizes(kvType, sliding))
      && (r.Failure? ==> r.error == RowError(kvType))
    decreases |counts|
  {
    hide SectionBytes, Sizes, RowError;
    if counts != [] {
      SectionExactly(sliding, counts[0], kvType, perCell);
      assert counts == [counts[0]] + counts[1..];
      assert forall n :: n in counts <==> n == counts[0] || n in counts[1..];
      assert counts[0] in counts;
      var section := SectionBytes(sliding, counts[0], kvType, perCell);
      if section.Success? {
        CheckpointsExactly(sliding, counts[1..], kvType, perCell,
          total + BYTES_PER_CHECKPOINT_RECORD + 3 * BYTES_PER_CHECKPOINT_BUFFER_LENGTH + G.CHECKPOINT_PAYLOAD_PREAMBLE + section.value);
      }
    }
  }

  // ---------------------------------------------------------------------------
  // A file of layers
  // ---------------------------------------------------------------------------

  datatype LayeredQuery = LayeredQuery(
    g: LayeredGeometry, cells: int, checkpointCells: seq<int>, slidingCount: Option<int>, kvType: string, headerTokens: Option<int>)
  {
    ghost predicate Slides() {
      exists l :: l in g.layers && l.sliding
    }

    function SlidingCount(): int {
      match slidingCount case None => 0 case Some(n) => n
    }

    /** Some layer takes part in a section that has cells, and its rows have no size. */
    ghost predicate RowsFail() {
      exists l :: l in g.layers && (if l.sliding then SlidingCount() > 0 else cells > 0) && !(Known(kvType) && WholeLayer(kvType, l))
    }
  }

  /** What can be wrong with a question for the size of a file of layers; the faults do not depend on one another. */
  ghost predicate LayeredFault(q: LayeredQuery, why: SizingError) {
    match why
    case UnsupportedArchitecture => q.g.architecture in HYBRID_ARCHITECTURES || q.g.architecture in RECURRENT_ARCHITECTURES
    case BadGeometry =>
      || q.g.layers == []
      || (exists i :: 0 <= i < |q.g.layers| && Min(Min(q.g.layers[i].nKvHead, q.g.layers[i].headDim), q.g.layers[i].valueHeadDim) <= 0)
      || (exists i, j :: 0 <= i < j < |q.g.layers| && q.g.layers[i].index == q.g.layers[j].index)
      || (if q.Slides() then q.g.slidingWindow <= 0 else q.g.slidingWindow != 0)
    case NegativeCells => q.cells < 0
    case NegativeTokens => q.headerTokens.Some? && q.headerTokens.value < 0
    case SlidingCountMissing => q.Slides() && q.slidingCount.None?
    case SlidingCountWithoutLayers => !q.Slides() && q.slidingCount.Some?
    case SlidingCountRange => q.slidingCount.Some? && !(0 <= q.slidingCount.value <= q.cells)
    case CheckpointsWithoutSliding => q.checkpointCells != [] && !q.Slides()
    case CheckpointRange => exists n :: n in q.checkpointCells && !(0 <= n <= q.SlidingCount())
    case ConditionalCellExt => q.g.architecture in CONDITIONAL_CELL_EXT_ARCHITECTURES
    case UnknownType => !Known(q.kvType) && q.RowsFail()
    case PartialBlock => Known(q.kvType) && q.RowsFail()
    case _ => false
  }

  /** The order in which the faults are looked for. */
  function Rank(why: SizingError): nat {
    match why
    case UnsupportedArchitecture => 0
    case NegativeCheckpoints => 1
    case BadGeometry => 2
    case NegativeCells => 3
    case NegativeTokens => 4
    case SlidingCountMissing => 5
    case SlidingCountWithoutLayers => 6
    case SlidingCountRange => 7
    case CheckpointsWithoutSliding => 8
    case CheckpointRange => 9
    case ConditionalCellExt => 10
    case _ => 11
  }

  ghost predicate FirstFault(why: SizingError, fault: SizingError -> bool) {
    fault(why) && forall other :: fault(other) ==> Rank(why) <= Rank(other)
  }

  lemma ValidExactly(q: LayeredQuery)
    ensures q.g.Valid() <==> !LayeredFault(q, BadGeometry)
    ensures q.Slides() <==> q.g.Sliding() != []
    ensures forall l :: l in q.g.Sliding() <==> l in q.g.layers && l.sliding
    ensures forall l :: l in q.g.Base() <==> l in q.g.layers && !l.sliding
  {
    hide Filter;
    forall l
      ensures l in Filter(q.g.layers, Slides) <==> l in q.g.layers && l.sliding
      ensures l in Filter(q.g.layers, StaysFull) <==> l in q.g.layers && !l.sliding
    {
      FilterIn(q.g.layers, Slides, l);
      FilterIn(q.g.layers, StaysFull, l);
    }
    if q.g.Sliding() != [] {
      assert q.g.Sliding()[0] in q.g.Sliding();
    }
  }

  /** Nothing is wrong with the question but, perhaps, the rows. */
  ghost predicate OnlyRows(q: LayeredQuery) {
    forall why :: Rank(why) < 11 ==> !LayeredFault(q, why)
  }

  /** The sections whose rows are asked for. */
  lemma RowsExactly(q: LayeredQuery)
    requires AllValid(q.g.Base()) && AllValid(q.g.Sliding())
    ensures !q.RowsFail() <==>
      && (q.cells > 0 ==> Sizes(q.kvType, q.g.Base()))
      && (q.SlidingCount() > 0 ==> Sizes(q.kvType, q.g.Sliding()))
  {
    hide LayeredGeometry.Sliding, LayeredGeometry.Base, WholeLayer, Known, LayeredFault, LayeredGeometry.Valid, AllValid;
    ValidExactly(q);
    var base, sliding := q.g.Base(), q.g.Sliding();
    assert forall l :: l in q.g.layers <==> l in base || l in sliding;
    assert forall l :: l in base ==> !l.sliding;
    assert base != [] ==> base[0] in base;
    assert sliding != [] ==> sliding[0] in sliding;
  }

  /** The faults, as the code asks for them. */
  lemma FaultsAre(q: LayeredQuery)
    ensures Refused(q.g.architecture) <==> LayeredFault(q, UnsupportedArchitecture)
    ensures !q.g.Valid() <==> LayeredFault(q, BadGeometry)
    ensures q.cells < 0 <==> LayeredFault(q, NegativeCells)
    ensures q.cells >= 0 ==> (Tokens(q.cells, q.headerTokens) < 0 <==> LayeredFault(q, NegativeTokens))
    ensures q.g.Sliding() != [] && q.slidingCount.None? <==> LayeredFault(q, SlidingCountMissing)
    ensures q.g.Sliding() == [] && q.slidingCount.Some? <==> LayeredFault(q, SlidingCountWithoutLayers)
    ensures q.cells >= 0 ==> (!(0 <= q.SlidingCount() <= q.cells) <==> LayeredFault(q, SlidingCountRange))
    ensures q.checkpointCells != [] && q.g.Sliding() == [] <==> LayeredFault(q, CheckpointsWithoutSliding)
    ensures (exists i :: 0 <= i < |q.checkpointCells| && !(0 <= q.checkpointCells[i] <= q.SlidingCount())) <==> LayeredFault(q, CheckpointRange)
  {
    hide LayeredGeometry.Valid, LayeredGeometry.Sliding, LayeredGeometry.Base, LayeredQuery.RowsFail, Known;
    ValidExactly(q);
    assert forall i :: 0 <= i < |q.checkpointCells| ==> q.checkpointCells[i] in q.checkpointCells;
  }

  lemma OtherFaultsAre(q: LayeredQuery)
    ensures PerCell(q.g.architecture) == Failure(ConditionalCellExt) <==> LayeredFault(q, ConditionalCellExt)
    ensures PerCell(q.g.architecture).Success? <==> !LayeredFault(q, ConditionalCellExt)
    ensures forall why :: LayeredFault(q, why) ==> Rank(why) < 11 || (why == RowError(q.kvType) && q.RowsFail())
    ensures q.RowsFail() ==> LayeredFault(q, RowError(q.kvType))
    ensures !LayeredFault(q, NegativeCheckpoints)
  {
    hide LayeredQuery.Slides, LayeredQuery.RowsFail, Known;
  }

  lemma PartsExactly(q: LayeredQuery)
    requires OnlyRows(q)
    ensures
      var r := LayeredStateBytes(q.g, q.cells, q.checkpointCells, q.slidingCount, q.kvType, q.headerTokens);
      && (r.Success? <==> !q.RowsFail())
      && (r.Failure? ==> r.error == RowError(q.kvType))
  {
    hide SectionBytes, CheckpointSections, LayeredGeometry.Valid, LayeredGeometry.Sliding, LayeredGeometry.Base, WholeLayer, Known, Sizes,
      LayeredFault, LayeredQuery.RowsFail, RowError, Refused, Tokens, PerCell, AllValid;
    FaultsAre(q);
    OtherFaultsAre(q);
    BothValid(q.g);
    RowsExactly(q);
    var perCell := PerCell(q.g.architecture).value;
    SectionExactly(q.g.Base(), q.cells, q.kvType, perCell);
    SectionExactly(q.g.Sliding(), q.SlidingCount(), q.kvType, perCell);
    CheckpointsExactly(q.g.Sliding(), q.checkpointCells, q.kvType, perCell, CHECKPOINT_APPENDIX_HEADER);
    assert forall n :: n in q.checkpointCells && n > 0 ==> q.SlidingCount() > 0;
  }

  lemma BothValid(g: LayeredGeometry)
    requires g.Valid()
    ensures AllValid(g.Base()) && AllValid(g.Sliding())
  {
  }

  lemma StructureExactly(q: LayeredQuery)
    requires !OnlyRows(q)
    ensures
      var r := LayeredStateBytes(q.g, q.cells, q.checkpointCells, q.slidingCount, q.kvType, q.headerTokens);
      r.Failure? && FirstFault(r.error, why => LayeredFault(q, why))
  {
    hide SectionBytes, CheckpointSections, LayeredGeometry.Valid, LayeredGeometry.Sliding, LayeredGeometry.Base, WholeLayer, Known,
      LayeredFault, LayeredQuery.RowsFail, RowError, Refused, Tokens, PerCell, AllValid;
    FaultsAre(q);
    OtherFaultsAre(q);
  }

  /** A file of layers has a size if and only if the question has no fault; otherwise the first fault is given. */
  lemma LayeredSizesExactly(q: LayeredQuery)
    ensures
      var r := LayeredStateBytes(q.g, q.cells, q.checkpointCells, q.slidingCount, q.kvType, q.headerTokens);
      && (r.Success? <==> forall why :: !LayeredFault(q, why))
      && (r.Failure? ==> FirstFault(r.error, why => LayeredFault(q, why)))
  {
    hide LayeredStateBytes, LayeredFault, LayeredQuery.RowsFail, RowError;
    FaultsAre(q);
    OtherFaultsAre(q);
    if OnlyRows(q) {
      PartsExactly(q);
    } else {
      StructureExactly(q);
    }
  }

  // ---------------------------------------------------------------------------
  // A hybrid file
  // ---------------------------------------------------------------------------

  datatype HybridQuery = HybridQuery(
    g: HybridGeometry, cells: int, checkpoints: int, kvType: string, headerTokens: Option<int>, recurrentCells: int)
  {
    /** The rows of keys and of values, asked for even when there are no cells. */
    predicate RowsFail() {
      !Known(kvType) || !Whole(kvType, g.nKvHead * g.headDim) || !Whole(kvType, g.nKvHead * g.Attention().ValueDim())
    }
  }

  predicate HybridFault(q: HybridQuery, why: SizingError) {
    match why
    case NegativeCheckpoints => q.checkpoints < 0
    case BadGeometry =>
      || q.g.attentionLayers <= 0 || q.g.nKvHead <= 0 || q.g.headDim <= 0
      || (q.g.valueHeadDim.Some? && q.g.valueHeadDim.value <= 0)
      || q.g.recurrentLayers < 0 || q.g.convRowBytes <= 0 || q.g.ssmRowBytes <= 0 || q.recurrentCells < 1
    case NegativeCells => q.cells < 0
    case NegativeTokens => q.headerTokens.Some? && q.headerTokens.value < 0
    case ConditionalCellExt => q.g.architecture in CONDITIONAL_CELL_EXT_ARCHITECTURES
    case UnknownType => !Known(q.kvType) && q.RowsFail()
    case PartialBlock => Known(q.kvType) && q.RowsFail()
    case _ => false
  }

  lemma RowPair(kvType: string, a: nat, b: nat)
    ensures RowSize(kvType, a).Success? && RowSize(kvType, b).Success? <==> Known(kvType) && Whole(kvType, a) && Whole(kvType, b)
    ensures RowSize(kvType, a).Failure? ==> RowSize(kvType, a).error == RowError(kvType)
    ensures RowSize(kvType, b).Failure? ==> RowSize(kvType, b).error == RowError(kvType)
  {
    hide RowSize, Known, Whole;
    RowFails(kvType, a);
    RowFails(kvType, b);
    RowSizeExactly(kvType, a, 0);
    RowSizeExactly(kvType, b, 0);
  }

  /** A hybrid file has a size if and only if the question has no fault; otherwise the first fault is given. */
  lemma HybridSizesExactly(q: HybridQuery)
    ensures
      var r := HybridStateBytes(q.g, q.cells, q.checkpoints, q.kvType, q.headerTokens, q.recurrentCells);
      && (r.Success? <==> forall why :: !HybridFault(q, why))
      && (r.Failure? ==> FirstFault(r.error, why => HybridFault(q, why)))
  {
    hide RowSize, Known, Whole, RecurrentBytes, AppendixBytes;
    var r := HybridStateBytes(q.g, q.cells, q.checkpoints, q.kvType, q.headerTokens, q.recurrentCells);
    assert q.g.Attention().Valid() && q.g.recurrentLayers >= 0 && Min(q.g.convRowBytes, q.g.ssmRowBytes) > 0 && q.recurrentCells >= 1
      <==> !HybridFault(q, BadGeometry);
    if q.g.Attention().Valid() {
      RowPair(q.kvType, q.g.Attention().KeyElements(), q.g.Attention().ValueElements());
    }
    if r.Failure? {
      assert HybridFault(q, r.error);
      assert forall other :: HybridFault(q, other) ==> Rank(r.error) <= Rank(other);
    } else {
      assert forall why :: !HybridFault(q, why);
    }
  }

  // ---------------------------------------------------------------------------
  // A uniform file
  // ---------------------------------------------------------------------------

  datatype UniformQuery = UniformQuery(g: KVGeometry, cells: int, kvType: string, headerTokens: Option<int>) {
    predicate RowsFail() {
      !Known(kvType) || !Whole(kvType, g.nKvHead * g.headDim) || !Whole(kvType, g.nKvHead * g.ValueDim())
    }
  }

  predicate UniformFault(q: UniformQuery, why: SizingError) {
    match why
    case UnsupportedArchitecture => q.g.architecture in HYBRID_ARCHITECTURES || q.g.architecture in RECURRENT_ARCHITECTURES
    case BadGeometry =>
      q.g.nLayer <= 0 || q.g.nKvHead <= 0 || q.g.headDim <= 0 || (q.g.valueHeadDim.Some? && q.g.valueHeadDim.value <= 0)
    case NegativeCells => q.cells < 0
    case NegativeTokens => q.headerTokens.Some? && q.headerTokens.value < 0
    case UnknownType => !Known(q.kvType) && q.RowsFail()
    case PartialBlock => Known(q.kvType) && q.RowsFail()
    case _ => false
  }

  /** The scalar law: no fault, or the first one. A conditional cell extension is none of them. */
  lemma UniformSizesExactly(q: UniformQuery)
    ensures
      var r := StateBytes(q.g, q.cells, q.kvType, q.headerTokens);
      && (r.Success? <==> forall why :: !UniformFault(q, why))
      && (r.Failure? ==> FirstFault(r.error, why => UniformFault(q, why)))
  {
    hide RowSize, Known, Whole;
    var r := StateBytes(q.g, q.cells, q.kvType, q.headerTokens);
    if q.g.Valid() {
      RowPair(q.kvType, q.g.KeyElements(), q.g.ValueElements());
    }
    if r.Failure? {
      assert UniformFault(q, r.error);
      assert forall other :: UniformFault(q, other) ==> Rank(r.error) <= Rank(other);
    } else {
      assert forall why :: !UniformFault(q, why);
    }
  }
}
