/** Exactly which bytes the bounded readers accept as a section, and as what: every field, limit and end, said of the bytes. */
module GgsqAccepts {
  import opened Wrappers
  import opened Bytes
  import opened GgsqReader
  import opened GgsqProperties

  /** A field of the file that also lies within the bound of the section. */
  predicate Fits(f: bytes, end: nat, off: nat, n: nat) {
    off + n <= end && off + n <= |f|
  }

  // Cells

  predicate IsCell(f: bytes, end: nat, shape: AttentionShape, off: nat, pos: int, next: nat) {
    && Fits(f, end, off, 8) && pos == I32(f, off) && U32(f, off + 4) <= 64
    && (shape.hasCellExt ==> shape.cellExtSize >= 0)
    && next == off + 8 + (if shape.hasCellExt then shape.cellExtSize else 0) + 4 * U32(f, off + 4) && next <= end
  }

  ghost predicate AreCells(f: bytes, end: nat, shape: AttentionShape, off: nat, positions: seq<int>, stop: nat)
    decreases |positions|
  {
    if positions == [] then stop == off else
    exists next: nat :: IsCell(f, end, shape, off, positions[0], next) && AreCells(f, end, shape, next, positions[1..], stop)
  }

  lemma CellExactly(f: bytes, end: nat, shape: AttentionShape, off: nat, pos: int, next: nat)
    ensures CellAt(View(f, end), off, shape) == Success((pos, next)) <==> IsCell(f, end, shape, off, pos, next)
  {
  }

  lemma {:induction false} CellsExactly(
      f: bytes, end: nat, shape: AttentionShape, off: nat, n: nat, acc: seq<int>, positions: seq<int>, stop: nat)
    ensures CellsAt(View(f, end), off, n, shape, acc) == Success((acc + positions, stop)) <==>
      |positions| == n && AreCells(f, end, shape, off, positions, stop)
    decreases n
  {
    hide CellAt, IsCell;
    var v := View(f, end);
    if n == 0 {
      assert acc + positions == acc <==> positions == [];
    } else {
      forall pos, next: nat
        ensures CellAt(v, off, shape) == Success((pos, next)) <==> IsCell(f, end, shape, off, pos, next)
      {
        CellExactly(f, end, shape, off, pos, next);
      }
      CellsExtend(v, off, n, shape, acc);
      if CellAt(v, off, shape).Success? {
        var (pos, next) := CellAt(v, off, shape).value;
        assert CellAt(v, off, shape) == Success((pos, next));
        if positions != [] {
          CellsExactly(f, end, shape, next, n - 1, acc + [pos], positions[1..], stop);
          if positions[0] == pos {
            assert acc + [pos] + positions[1..] == acc + positions;
          } else {
            assert (acc + positions)[|acc|] == positions[0];
          }
        } else {
          assert acc + positions == acc;
        }
      }
    }
  }

  /** What is collected begins with what was there, and the next cell's position. */
  lemma {:induction false} CellsExtend(v: View, off: nat, n: nat, shape: AttentionShape, acc: seq<int>)
    ensures CellsAt(v, off, n, shape, acc).Success? ==> acc <= CellsAt(v, off, n, shape, acc).value.0
    ensures CellsAt(v, off, n, shape, acc).Success? && n > 0 ==>
      |acc| < |CellsAt(v, off, n, shape, acc).value.0| && CellsAt(v, off, n, shape, acc).value.0[|acc|] == CellAt(v, off, shape).value.0
    decreases n
  {
    hide CellAt;
    if n > 0 && CellAt(v, off, shape).Success? {
      var (pos, next) := CellAt(v, off, shape).value;
      CellsExtend(v, next, n - 1, shape, acc + [pos]);
    }
  }

  // Tensors

  /** Rows: a type, a stride of whole blocks, and one row a cell. */
  predicate IsRows(f: bytes, end: nat, off: nat, layer: int, kind: Kind, cells: nat, span: TensorSpan, next: nat) {
    && Fits(f, end, off, 12)
    && var t := TypeById(I32(f, off));
    && var stride := U64(f, off + 4);
    && t.Some? && stride % t.value.perBlock == 0
    && span == TensorSpan(layer, kind, I32(f, off), stride, stride / t.value.perBlock * t.value.block, off + 12, cells * stride, false)
    && next == off + 12 + cells * stride && next <= end
  }

  /** Columns: a type, the size of an element under it, a width, and one column an element. */
  predicate IsColumns(f: bytes, end: nat, off: nat, layer: int, cells: nat, span: TensorSpan, next: nat) {
    && Fits(f, end, off, 12)
    && var t := TypeById(I32(f, off));
    && t.Some? && U32(f, off + 4) == t.value.perBlock / t.value.block
    && var nbytes := U32(f, off + 8) * cells * U32(f, off + 4);
    && span == TensorSpan(layer, Value, I32(f, off), U32(f, off + 4) * cells, U32(f, off + 8), off + 12, nbytes, true)
    && next == off + 12 + nbytes && next <= end
  }

  predicate IsTensor(f: bytes, end: nat, off: nat, layer: int, kind: Kind, cells: nat, transposed: bool, span: TensorSpan, next: nat) {
    if transposed then IsColumns(f, end, off, layer, cells, span, next) else IsRows(f, end, off, layer, kind, cells, span, next)
  }

  /** One tensor a layer, back to back. */
  ghost predicate AreTensors(
      f: bytes, end: nat, off: nat, layers: seq<int>, kind: Kind, cells: nat, transposed: bool, spans: seq<TensorSpan>, stop: nat)
    decreases |layers|
  {
    if layers == [] || spans == [] then layers == [] && spans == [] && stop == off else
    exists next: nat ::
      && IsTensor(f, end, off, layers[0], kind, cells, transposed, spans[0], next)
      && AreTensors(f, end, next, layers[1..], kind, cells, transposed, spans[1..], stop)
  }

  lemma TensorExactly(
      f: bytes, end: nat, off: nat, layer: int, kind: Kind, cells: nat, transposed: bool, span: TensorSpan, next: nat)
    ensures SpanAt(View(f, end), off, layer, kind, cells, transposed) == Success((span, next)) <==>
      IsTensor(f, end, off, layer, kind, cells, transposed, span, next)
  {
  }

  lemma {:induction false} TensorsExactly(
      f: bytes, end: nat, off: nat, layers: seq<int>, kind: Kind, cells: nat, transposed: bool, acc: seq<TensorSpan>,
      spans: seq<TensorSpan>, stop: nat)
    ensures SpansAt(View(f, end), off, layers, kind, cells, transposed, acc) == Success((acc + spans, stop)) <==>
      AreTensors(f, end, off, layers, kind, cells, transposed, spans, stop)
    decreases |layers|
  {
    hide SpanAt, IsTensor;
    var v := View(f, end);
    if layers == [] {
      assert acc + spans == acc <==> spans == [];
    } else {
      forall span, next: nat
        ensures SpanAt(v, off, layers[0], kind, cells, transposed) == Success((span, next)) <==>
          IsTensor(f, end, off, layers[0], kind, cells, transposed, span, next)
      {
        TensorExactly(f, end, off, layers[0], kind, cells, transposed, span, next);
      }
      TensorsExtend(v, off, layers, kind, cells, transposed, acc);
      var first := SpanAt(v, off, layers[0], kind, cells, transposed);
      if first.Success? {
        var (span, next) := first.value;
        assert first == Success((span, next));
        if spans != [] {
          TensorsExactly(f, end, next, layers[1..], kind, cells, transposed, acc + [span], spans[1..], stop);
          if spans[0] == span {
            assert acc + [span] + spans[1..] == acc + spans;
          } else {
            assert (acc + spans)[|acc|] == spans[0];
          }
        } else {
          assert acc + spans == acc;
        }
      }
    }
  }

  lemma {:induction false} TensorsExtend(
      v: View, off: nat, layers: seq<int>, kind: Kind, cells: nat, transposed: bool, acc: seq<TensorSpan>)
    ensures var r := SpansAt(v, off, layers, kind, cells, transposed, acc);
      && (r.Success? ==> acc <= r.value.0)
      && (r.Success? && layers != [] ==>
            |acc| < |r.value.0| && r.value.0[|acc|] == SpanAt(v, off, layers[0], kind, cells, transposed).value.0)
    decreases |layers|
  {
    hide SpanAt;
    if layers != [] && SpanAt(v, off, layers[0], kind, cells, transposed).Success? {
      var (span, next) := SpanAt(v, off, layers[0], kind, cells, transposed).value;
      TensorsExtend(v, next, layers[1..], kind, cells, transposed, acc + [span]);
    }
  }

  // The attention section

  /** The layers a section is about: numbered, or named by the caller, each once. */
  predicate AreLayers(n: nat, named: Option<seq<int>>, layers: seq<int>) {
    && |layers| == n
    && (named.None? ==> forall i :: 0 <= i < n ==> layers[i] == i)
    && (named.Some? ==>
          && layers == named.value && (forall i :: 0 <= i < n ==> layers[i] >= 0)
          && forall i, j :: 0 <= i < j < n ==> layers[i] != layers[j])
  }

  lemma LayersExactly(n: nat, named: Option<seq<int>>, layers: seq<int>)
    ensures LayerMap(n, named) == Success(layers) <==> AreLayers(n, named, layers)
  {
    if named.None? && AreLayers(n, named, layers) {
      assert layers == Range(n);
    }
  }

  /** Keys for every layer, then values for every layer. */
  ghost predicate AreBoth(f: bytes, end: nat, off: nat, layers: seq<int>, cells: nat, vTrans: bool, spans: seq<TensorSpan>, stop: nat) {
    exists keys, values, middle: nat ::
      && spans == keys + values && AreTensors(f, end, off, layers, Key, cells, false, keys, middle)
      && AreTensors(f, end, middle, layers, Value, cells, vTrans, values, stop)
  }

  /** Flag, count, keys and values, from `off` to the end. */
  ghost predicate IsBody(f: bytes, end: nat, shape: AttentionShape, off: nat, section: AttentionSection) {
    && Fits(f, end, off, 8) && section.vTrans == (U32(f, off) != 0) && section.nLayer == U32(f, off + 4) && 1 <= section.nLayer <= 512
    && exists layers ::
         && AreLayers(section.nLayer, shape.layerIndices, layers)
         && AreBoth(f, end, off + 8, layers, section.cellCount, section.vTrans, section.spans, section.endOffset)
  }

  ghost predicate IsSection(f: bytes, start: nat, end: nat, shape: AttentionShape, section: AttentionSection) {
    && Fits(f, end, start, 8) && U32(f, start) == 1 && section.nStream == 1 && section.cellCount == U32(f, start + 4)
    && if section.cellCount == 0 then section == AttentionSection(1, 0, false, 0, [], [], start + 8)
       else
         && |section.positions| == section.cellCount
         && exists off: nat :: AreCells(f, end, shape, start + 8, section.positions, off) && IsBody(f, end, shape, off, section)
  }

  lemma BodyExactly(f: bytes, end: nat, shape: AttentionShape, off: nat, section: AttentionSection)
    ensures TensorsAt(View(f, end), off, section.cellCount, shape.layerIndices)
        == Success(Tensors(section.vTrans, section.nLayer, section.spans, section.endOffset))
      <==> IsBody(f, end, shape, off, section)
  {
    hide SpansAt, AreTensors, LayerMap, AreLayers;
    var v, cells := View(f, end), section.cellCount;
    if Fits(f, end, off, 8) {
      var vTrans, n := U32(f, off) != 0, U32(f, off + 4);
      forall layers
        ensures LayerMap(n, shape.layerIndices) == Success(layers) <==> AreLayers(n, shape.layerIndices, layers)
        ensures ReadsBoth(f, end, off + 8, layers, cells, vTrans, section.spans, section.endOffset) <==>
          AreBoth(f, end, off + 8, layers, cells, vTrans, section.spans, section.endOffset)
      {
        LayersExactly(n, shape.layerIndices, layers);
        PassesExactly(f, end, off + 8, layers, cells, vTrans, section.spans, section.endOffset);
      }
      BodyReads(f, end, shape, off, section);
    }
  }

  /** The reader's steps behind the cells. */
  lemma BodyReads(f: bytes, end: nat, shape: AttentionShape, off: nat, section: AttentionSection)
    requires Fits(f, end, off, 8)
    ensures var vTrans, n := U32(f, off) != 0, U32(f, off + 4);
      TensorsAt(View(f, end), off, section.cellCount, shape.layerIndices)
        == Success(Tensors(section.vTrans, section.nLayer, section.spans, section.endOffset))
      <==>
      && section.vTrans == vTrans && section.nLayer == n && 1 <= n <= 512 && LayerMap(n, shape.layerIndices).Success?
      && ReadsBoth(f, end, off + 8, LayerMap(n, shape.layerIndices).value, section.cellCount, vTrans, section.spans, section.endOffset)
  {
    hide SpansAt, LayerMap;
    var v, vTrans, n := View(f, end), U32(f, off) != 0, U32(f, off + 4);
    assert U32At(v, off) == Success((U32(f, off), off + 4)) && U32At(v, off + 4) == Success((n, off + 8));
    if 1 <= n <= 512 && LayerMap(n, shape.layerIndices).Success? {
      var layers := LayerMap(n, shape.layerIndices).value;
      var first := SpansAt(v, off + 8, layers, Key, section.cellCount, false, []);
      if first.Success? {
        var (keys, middle) := first.value;
        assert first == Success((keys, middle));
        var second := SpansAt(v, middle, layers, Value, section.cellCount, vTrans, keys);
        if second.Success? {
          var (spans, stop) := second.value;
          assert second == Success((spans, stop));
        }
      }
    }
  }

  /** The two passes over the layers, keys first. */
  lemma PassesExactly(f: bytes, end: nat, off: nat, layers: seq<int>, cells: nat, vTrans: bool, spans: seq<TensorSpan>, stop: nat)
    ensures ReadsBoth(f, end, off, layers, cells, vTrans, spans, stop) <==> AreBoth(f, end, off, layers, cells, vTrans, spans, stop)
  {
    hide SpansAt, AreTensors;
    var v := View(f, end);
    if ReadsBoth(f, end, off, layers, cells, vTrans, spans, stop) {
      var (keys, middle) := SpansAt(v, off, layers, Key, cells, false, []).value;
      assert SpansAt(v, off, layers, Key, cells, false, []) == Success((keys, middle));
      TensorsExactly(f, end, off, layers, Key, cells, false, [], keys, middle);
      assert [] + keys == keys;
      TensorsExtend(v, middle, layers, Value, cells, vTrans, keys);
      var values := spans[|keys|..];
      assert spans == keys + values;
      TensorsExactly(f, end, middle, layers, Value, cells, vTrans, keys, values, stop);
    }
    if AreBoth(f, end, off, layers, cells, vTrans, spans, stop) {
      var keys, values, middle: nat :|
        && spans == keys + values && AreTensors(f, end, off, layers, Key, cells, false, keys, middle)
        && AreTensors(f, end, middle, layers, Value, cells, vTrans, values, stop);
      TensorsExactly(f, end, off, layers, Key, cells, false, [], keys, middle);
      assert [] + keys == keys;
      TensorsExactly(f, end, middle, layers, Value, cells, vTrans, keys, values, stop);
    }
  }

  ghost predicate ReadsBoth(f: bytes, end: nat, off: nat, layers: seq<int>, cells: nat, vTrans: bool, spans: seq<TensorSpan>, stop: nat) {
    var first := SpansAt(View(f, end), off, layers, Key, cells, false, []);
    first.Success? && SpansAt(View(f, end), first.value.1, layers, Value, cells, vTrans, first.value.0) == Success((spans, stop))
  }

  /** The reader accepts exactly these bytes as exactly this section. */
  lemma SectionExactly(f: bytes, start: nat, end: nat, shape: AttentionShape, section: AttentionSection)
    ensures AttentionAt(f, start, end, shape) == Success(section) <==> IsSection(f, start, end, shape, section)
  {
    hide CellsAt, TensorsAt, AreCells, IsBody;
    if Fits(f, end, start, 8) && U32(f, start) == 1 && U32(f, start + 4) > 0 {
      FilledExactly(f, start, end, shape, section);
    }
  }

  lemma FilledExactly(f: bytes, start: nat, end: nat, shape: AttentionShape, section: AttentionSection)
    requires Fits(f, end, start, 8) && U32(f, start) == 1 && U32(f, start + 4) > 0
    ensures AttentionAt(f, start, end, shape) == Success(section) <==> IsSection(f, start, end, shape, section)
  {
    hide CellsAt, TensorsAt, AreCells, IsBody;
    var v, n := View(f, end), U32(f, start + 4);
    if AttentionAt(f, start, end, shape) == Success(section) {
      var (positions, off) := CellsAt(v, start + 8, n, shape, []).value;
      assert CellsAt(v, start + 8, n, shape, []) == Success((positions, off));
      CellsExactly(f, end, shape, start + 8, n, [], positions, off);
      assert [] + positions == positions;
      BodyExactly(f, end, shape, off, section);
    }
    if IsSection(f, start, end, shape, section) {
      var off: nat :| AreCells(f, end, shape, start + 8, section.positions, off) && IsBody(f, end, shape, off, section);
      CellsExactly(f, end, shape, start + 8, n, [], section.positions, off);
      assert [] + section.positions == section.positions;
      BodyExactly(f, end, shape, off, section);
    }
  }
}
