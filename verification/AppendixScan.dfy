/** Finding the checkpoint appendix in a file whose boundary is not known: a chunked search for its magic, and the
    classification built on it. */
module AppendixScan {
  import opened Wrappers
  import opened Bytes
  import opened Sequences
  import opened GgsqReader
  import opened Envelope

  const SCAN_CHUNK := 0x40_0000

  ghost predicate MagicAt(f: bytes, i: int) {
    OccursAt(f, SCKP_MAGIC, i)
  }

  /** The hits in one window from `from` on, as offsets in the file that window starts at `base` of. */
  function Hits(w: bytes, from: nat, base: nat): seq<nat>
    decreases |w| - from
  {
    match Find(w, SCKP_MAGIC, from)
    case None => []
    case Some(i) => [base + i] + Hits(w, i + 1, base)
  }

  /** The scan from `position` on, the last bytes of the previous block carried over. */
  function ScanFrom(f: bytes, chunk: nat, position: nat, carry: bytes): seq<nat>
    requires |carry| <= position
    decreases |f| - position
  {
    if position >= |f| then [] else
    var block := ReadAt(f, position, chunk);
    if block == [] then [] else
    Hits(carry + block, 0, position - |carry|) + ScanFrom(f, chunk, position + |block|, LastThree(block))
  }

  function LastThree(block: bytes): bytes {
    if |block| <= 3 then block else block[|block| - 3..]
  }

  /** The hits from a found one on. */
  ghost function FromHit(w: bytes, hit: Option<nat>, base: nat): seq<nat>
    requires hit.Some? ==> hit.value < |w|
  {
    if hit.None? then [] else [base + hit.value] + Hits(w, hit.value + 1, base)
  }

  lemma {:induction false} HitsFrom(w: bytes, from: nat, base: nat)
    ensures Find(w, SCKP_MAGIC, from).Some? ==> Find(w, SCKP_MAGIC, from).value < |w|
    ensures Hits(w, from, base) == FromHit(w, Find(w, SCKP_MAGIC, from), base)
  {
  }

  lemma Associative<T>(a: seq<T>, b: seq<T>, c: seq<T>)
    ensures a + (b + c) == a + b + c
  {
  }

  method SearchWindow(window: bytes, base: nat) returns (found: seq<nat>)
    ensures found == Hits(window, 0, base)
  {
    hide Hits, Find, OccursAt;
    found := [];
    var hit := Find(window, SCKP_MAGIC, 0);
    HitsFrom(window, 0, base);
    while hit.Some?
      invariant hit.Some? ==> hit.value < |window|
      invariant Hits(window, 0, base) == found + FromHit(window, hit, base)
      decreases if hit.Some? then |window| - hit.value else 0
    {
      Associative(found, [base + hit.value], Hits(window, hit.value + 1, base));
      HitsFrom(window, hit.value + 1, base);
      found := found + [base + hit.value];
      hit := Find(window, SCKP_MAGIC, hit.value + 1);
    }
  }

  method ScanForMagic(f: bytes, chunk: nat) returns (found: seq<nat>)
    ensures found == ScanFrom(f, chunk, 0, [])
  {
    hide Hits;
    found := [];
    var carry: bytes := [];
    var position: nat := 0;
    while position < |f|
      invariant |carry| <= position
      invariant found + ScanFrom(f, chunk, position, carry) == ScanFrom(f, chunk, 0, [])
      decreases |f| - position
    {
      var block := ReadAt(f, position, chunk);
      if block == [] { return; }
      var hits := SearchWindow(carry + block, position - |carry|);
      Associative(found, hits, ScanFrom(f, chunk, position + |block|, LastThree(block)));
      found := found + hits;
      carry := LastThree(block);
      position := position + |block|;
    }
  }

  // ---------------------------------------------------------------------------
  // The chunked scan is the whole-file scan
  // ---------------------------------------------------------------------------

  /** Strictly increasing, and holding exactly the offsets of the magic in [lo, hi]. */
  ghost predicate ExactlyMagic(found: seq<nat>, f: bytes, lo: int, hi: int) {
    Increasing(found) && forall i :: i in found <==> lo <= i <= hi && MagicAt(f, i)
  }

  lemma {:induction false} HitsExact(f: bytes, w: bytes, from: nat, base: nat)
    requires base + |w| <= |f| && w == f[base..base + |w|]
    ensures ExactlyMagic(Hits(w, from, base), f, base + from, base + |w| - 4)
    decreases |w| - from
  {
    hide OccursAt, Find;
    WindowMagic(f, w, base);
    var r := Find(w, SCKP_MAGIC, from);
    if r.Some? {
      assert MagicAt(w, r.value);
      HitsExact(f, w, r.value + 1, base);
      ExactJoin([base + r.value], Hits(w, r.value + 1, base), f, base + from, base + r.value + 1, base + |w| - 4);
    }
  }

  lemma WindowMagic(f: bytes, w: bytes, base: nat)
    requires base + |w| <= |f| && w == f[base..base + |w|]
    ensures forall i :: base <= i <= base + |w| - 4 ==> (MagicAt(f, i) <==> MagicAt(w, i - base))
    ensures forall i :: MagicAt(w, i) ==> 0 <= i <= |w| - 4
  {
    forall i | base <= i <= base + |w| - 4 ensures MagicAt(f, i) <==> MagicAt(w, i - base) {
      SliceOfSlice(f, base, base + |w|, i - base, i - base + 4);
    }
  }

  lemma ExactJoin(a: seq<nat>, b: seq<nat>, f: bytes, lo: int, mid: int, hi: int)
    requires ExactlyMagic(a, f, lo, mid - 1) && ExactlyMagic(b, f, mid, hi) && lo <= mid <= hi + 1
    ensures ExactlyMagic(a + b, f, lo, hi)
  {
    forall i, j | 0 <= i < j < |a + b| ensures (a + b)[i] < (a + b)[j] {
      if i < |a| <= j {
        assert (a + b)[i] in a && (a + b)[j] in b;
      }
    }
  }

  /** A block behind what was carried into it, and what is carried out of it. */
  lemma CarriedWindow(f: bytes, chunk: nat, position: nat, carried: nat)
    requires carried <= position < |f|
    ensures var block := ReadAt(f, position, chunk); var next := position + |block|;
      && f[position - carried..position] + block == f[position - carried..next]
      && (|block| >= 3 ==> LastThree(block) == f[next - 3..next])
  {
  }

  /** What remains of the scan, given the carry holds the last three bytes already read (or all of them, if fewer). */
  lemma {:induction false} ScanRest(f: bytes, chunk: nat, position: nat, carry: bytes)
    requires chunk >= 3 && position <= |f| && |carry| == Min(3, position) && carry == f[position - |carry|..position]
    ensures ExactlyMagic(ScanFrom(f, chunk, position, carry), f, position - |carry|, |f| - 4)
    decreases |f| - position
  {
    hide Hits, MagicAt, OccursAt;
    if position < |f| {
      var block := ReadAt(f, position, chunk);
      var base := position - |carry|;
      var window := carry + block;
      var next := position + |block|;
      CarriedWindow(f, chunk, position, |carry|);
      HitsExact(f, window, 0, base);
      if next < |f| {
        var carry' := LastThree(block);
        ScanRest(f, chunk, next, carry');
        ExactJoin(Hits(window, 0, base), ScanFrom(f, chunk, next, carry'), f, base, next - 3, |f| - 4);
      } else {
        assert ScanFrom(f, chunk, next, LastThree(block)) == [];
        assert Hits(window, 0, base) + [] == Hits(window, 0, base);
      }
    }
  }

  /** With blocks of three bytes or more no magic is missed, none is repeated, and none is invented; with smaller blocks the
      scan misses the magic of a five-byte file. */
  lemma ScanIsExactFromThree(chunk: nat)
    ensures (forall f: bytes :: ExactlyMagic(ScanFrom(f, chunk, 0, []), f, 0, |f| - 4)) <==> chunk >= 3
  {
    hide ScanFrom, ExactlyMagic;
    if chunk >= 3 {
      forall f: bytes ensures ExactlyMagic(ScanFrom(f, chunk, 0, []), f, 0, |f| - 4) {
        ScanRest(f, chunk, 0, []);
      }
    } else {
      MagicBehindAZero(chunk);
    }
  }

  lemma MagicBehindAZero(chunk: nat)
    requires chunk < 3
    ensures var f := [0] + SCKP_MAGIC; !ExactlyMagic(ScanFrom(f, chunk, 0, []), f, 0, |f| - 4)
  {
    hide ScanFrom;
    var f: bytes := [0] + SCKP_MAGIC;
    assert f[1..1 + 4] == SCKP_MAGIC;
    assert MagicAt(f, 1);
    SmallChunksMiss(f, chunk);
    assert 1 !in ScanFrom(f, chunk, 0, []);
  }

  lemma {:induction false} SmallChunksMiss(f: bytes, chunk: nat)
    requires chunk < 3 && f == [0] + SCKP_MAGIC
    ensures ScanFrom(f, chunk, 0, []) == []
  {
    if chunk == 1 {
      assert ScanFrom(f, 1, 5, f[4..5]) == [];
      assert ScanFrom(f, 1, 4, f[3..4]) == [];
      assert ScanFrom(f, 1, 3, f[2..3]) == [];
      assert ScanFrom(f, 1, 2, f[1..2]) == [];
      assert ScanFrom(f, 1, 1, f[0..1]) == [];
    } else if chunk == 2 {
      assert ScanFrom(f, 2, 5, f[4..5]) == [];
      var last := f[2..4] + f[4..5];
      assert Find(last, SCKP_MAGIC, 0).None?;
      assert ScanFrom(f, 2, 4, f[2..4]) == [];
      var middle := f[0..2] + f[2..4];
      assert middle[0] == 0 && middle[0..4][0] == 0;
      assert Find(middle, SCKP_MAGIC, 0).None?;
      assert ScanFrom(f, 2, 2, f[0..2]) == [];
    }
  }

  // ---------------------------------------------------------------------------
  // Classification
  // ---------------------------------------------------------------------------

  function NoAppendix(): CheckpointAppendix {
    CheckpointAppendix(Absent, None, None, None, None)
  }

  /** The appendix at the offset the runtime implies; a path that is not a file is None. */
  function AppendixAtOffset(file: Option<bytes>, offset: int): CheckpointAppendix {
    match file
    case None => NoAppendix()
    case Some(f) =>
      if offset < 0 || offset + 12 > |f| then CheckpointAppendix(Malformed, Some(offset), None, None, None)
      else if f[offset..offset + 4] != SCKP_MAGIC then CheckpointAppendix(Absent, Some(offset), None, None, None)
      else match StreamAt(f, offset)
        case None => CheckpointAppendix(Malformed, Some(offset), None, None, None)
        case Some(parsed) => parsed
  }

  /** Of several refused candidates, the first that carries a version we read, else the first. */
  function Verdict(rejected: seq<CheckpointAppendix>): CheckpointAppendix {
    if rejected == [] then NoAppendix()
    else if exists i :: 0 <= i < |rejected| && rejected[i].version == Some(SCKP_VERSION) then FirstKnown(rejected)
    else rejected[0]
  }

  function FirstKnown(rejected: seq<CheckpointAppendix>): CheckpointAppendix
    requires exists i :: 0 <= i < |rejected| && rejected[i].version == Some(SCKP_VERSION)
  {
    if rejected[0].version == Some(SCKP_VERSION) then rejected[0] else
    assert forall i :: 0 < i < |rejected| ==> rejected[1..][i - 1] == rejected[i];
    FirstKnown(rejected[1..])
  }

  /** The first usable candidate, else the verdict on all that were refused. */
  function Classify(f: bytes, starts: seq<nat>, rejected: seq<CheckpointAppendix>): CheckpointAppendix
    decreases |starts|
  {
    if starts == [] then Verdict(rejected) else
    match StreamAt(f, starts[0])
    case None => Classify(f, starts[1..], rejected)
    case Some(parsed) => if parsed.Usable() then parsed else Classify(f, starts[1..], rejected + [parsed])
  }

  method ParseCheckpointAppendix(file: Option<bytes>) returns (r: CheckpointAppendix)
    ensures r == match file case None => NoAppendix() case Some(f) => Classify(f, ScanFrom(f, SCAN_CHUNK, 0, []), [])
  {
    hide StreamAt, ScanFrom, FirstKnown;
    if file.None? { return NoAppendix(); }
    var f := file.value;
    var starts := ScanForMagic(f, SCAN_CHUNK);
    var rejected := [];
    for i := 0 to |starts|
      invariant Classify(f, starts, []) == Classify(f, starts[i..], rejected)
    {
      assert starts[i..][1..] == starts[i + 1..];
      var parsed := ParseStream(f, starts[i]);
      if parsed.Some? {
        if parsed.value.Usable() { return parsed.value; }
        rejected := rejected + [parsed.value];
      }
    }
    if rejected == [] { return NoAppendix(); }
    for i := 0 to |rejected|
      invariant forall j :: 0 <= j < i ==> rejected[j].version != Some(SCKP_VERSION)
    {
      if rejected[i].version == Some(SCKP_VERSION) {
        FirstKnownIs(rejected, i);
        return rejected[i];
      }
    }
    return rejected[0];
  }

  lemma {:induction false} FirstKnownIs(rejected: seq<CheckpointAppendix>, i: nat)
    requires i < |rejected| && rejected[i].version == Some(SCKP_VERSION)
    requires forall j :: 0 <= j < i ==> rejected[j].version != Some(SCKP_VERSION)
    ensures FirstKnown(rejected) == rejected[i]
  {
    if i > 0 {
      FirstKnownIs(rejected[1..], i - 1);
    }
  }

  lemma UsableAtMagic(f: bytes, o: int)
    ensures AppendixAtOffset(Some(f), o).Usable() ==> MagicAt(f, o)
    ensures MagicAt(f, o) ==>
      (AppendixAtOffset(Some(f), o).Usable() <==> StreamAt(f, o).Some? && StreamAt(f, o).value.Usable())
    ensures MagicAt(f, o) && AppendixAtOffset(Some(f), o).Usable() ==> StreamAt(f, o) == Some(AppendixAtOffset(Some(f), o))
  {
    hide Records;
  }

  ghost predicate NoneUsable(appendices: seq<CheckpointAppendix>) {
    forall i :: 0 <= i < |appendices| ==> !appendices[i].Usable()
  }

  lemma {:induction false} VerdictUnusable(rejected: seq<CheckpointAppendix>)
    requires NoneUsable(rejected)
    ensures !Verdict(rejected).Usable()
    decreases |rejected|
  {
    if exists i :: 0 <= i < |rejected| && rejected[i].version == Some(SCKP_VERSION) {
      if rejected[0].version != Some(SCKP_VERSION) {
        var rest := rejected[1..];
        assert forall i :: 0 < i < |rejected| ==> rest[i - 1] == rejected[i];
        VerdictUnusable(rest);
        assert Verdict(rest) == FirstKnown(rest);
      }
    }
  }

  lemma {:induction false} ClassifyFirst(f: bytes, starts: seq<nat>, rejected: seq<CheckpointAppendix>, lo: nat)
    requires ExactlyMagic(starts, f, lo, |f| - 4) && NoneUsable(rejected)
    ensures
      var r := Classify(f, starts, rejected);
      if r.Usable() then exists o :: FirstUsable(f, lo, o) && AppendixAtOffset(Some(f), o) == r
      else forall o :: lo <= o ==> !AppendixAtOffset(Some(f), o).Usable()
    decreases |starts|
  {
    hide StreamAt, AppendixAtOffset, Verdict;
    if starts == [] {
      VerdictUnusable(rejected);
      forall o | lo <= o ensures !AppendixAtOffset(Some(f), o).Usable() {
        UsableAtMagic(f, o);
        assert MagicAt(f, o) ==> o in starts;
      }
    } else {
      var s := starts[0];
      assert s in starts;
      forall o | lo <= o < s ensures !AppendixAtOffset(Some(f), o).Usable() {
        UsableAtMagic(f, o);
        assert MagicAt(f, o) ==> o in starts;
      }
      UsableAtMagic(f, s);
      if AppendixAtOffset(Some(f), s).Usable() {
        assert FirstUsable(f, lo, s);
      } else {
        var rejected' := if StreamAt(f, s).Some? then rejected + [StreamAt(f, s).value] else rejected;
        TailExact(starts, f, lo);
        ClassifyFirst(f, starts[1..], rejected', s + 1);
        if Classify(f, starts, rejected).Usable() {
          var o :| FirstUsable(f, s + 1, o) && AppendixAtOffset(Some(f), o) == Classify(f, starts, rejected);
          assert FirstUsable(f, lo, o);
        }
      }
    }
  }

  lemma TailExact(starts: seq<nat>, f: bytes, lo: nat)
    requires starts != [] && ExactlyMagic(starts, f, lo, |f| - 4)
    ensures ExactlyMagic(starts[1..], f, starts[0] + 1, |f| - 4)
  {
    var tail := starts[1..];
    assert starts[0] in starts;
    forall i: nat ensures i in tail <==> starts[0] + 1 <= i <= |f| - 4 && MagicAt(f, i) {
      if i in tail {
        var k :| 0 <= k < |tail| && tail[k] == i;
        assert i == starts[k + 1];
        assert i in starts;
      }
      assert i in starts ==> i == starts[0] || i in tail;
    }
  }

  ghost predicate FirstUsable(f: bytes, lo: int, o: int) {
    && lo <= o && AppendixAtOffset(Some(f), o).Usable()
    && forall p :: lo <= p < o ==> !AppendixAtOffset(Some(f), p).Usable()
  }

  /** Scanning finds an appendix exactly when some offset holds one, and it is the one at the least such offset. */
  lemma {:induction false} ScanFindsFirst(f: bytes)
    ensures
      var r := Classify(f, ScanFrom(f, SCAN_CHUNK, 0, []), []);
      && (r.Usable() <==> exists o :: AppendixAtOffset(Some(f), o).Usable())
      && (r.Usable() ==> exists o :: FirstUsable(f, 0, o) && AppendixAtOffset(Some(f), o) == r)
  {
    hide ScanFrom, AppendixAtOffset, Classify;
    ScanIsExactFromThree(SCAN_CHUNK);
    ClassifyFirst(f, ScanFrom(f, SCAN_CHUNK, 0, []), [], 0);
    forall o | o < 0 ensures !AppendixAtOffset(Some(f), o).Usable() {
      UsableAtMagic(f, o);
    }
  }
}
