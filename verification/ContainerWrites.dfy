/** What writing a container produces and when: `kv_rosetta/container.py`. */
module ContainerWrites {
  import opened Wrappers
  import opened Bytes
  import opened Sequences
  import opened Segments
  import opened Container
  import opened ContainerProperties
  import opened ContainerRoundTrip

  // The digits of an offset

  function ValueOf(digits: bytes): int {
    if digits == [] then 0 else 10 * ValueOf(digits[..|digits| - 1]) + digits[|digits| - 1] - 0x30
  }

  predicate AreDigits(digits: bytes) {
    digits != [] && forall i :: 0 <= i < |digits| ==> 0x30 <= digits[i] <= 0x39
  }

  /** The digits of n, without a zero in front unless it is the only one. */
  predicate IsDecimal(digits: bytes, n: nat) {
    AreDigits(digits) && ValueOf(digits) == n && (|digits| > 1 ==> digits[0] != 0x30)
  }

  lemma {:induction false} DigitsCount(digits: bytes)
    requires AreDigits(digits)
    ensures ValueOf(digits) >= if digits[0] != 0x30 then 1 else 0
    decreases |digits|
  {
    if |digits| > 1 {
      DigitsCount(digits[..|digits| - 1]);
    } else {
      assert digits[..0] == [];
    }
  }

  lemma {:induction false} DecimalExactly(digits: bytes, n: nat)
    ensures digits == Decimal(n) <==> IsDecimal(digits, n)
    decreases n
  {
    IsItsDecimal(n);
    if IsDecimal(digits, n) {
      var front, last := digits[..|digits| - 1], digits[|digits| - 1];
      assert digits == front + [last];
      if front != [] {
        DigitsCount(front);
        assert n == 10 * ValueOf(front) + (last as int - 0x30);
        assert IsDecimal(front, n / 10);
        DecimalExactly(front, n / 10);
        assert last as int == 0x30 + n % 10;
      } else {
        assert ValueOf(front) == 0 && n == last as int - 0x30;
      }
    }
  }

  lemma {:induction false} IsItsDecimal(n: nat)
    ensures IsDecimal(Decimal(n), n)
    decreases n
  {
    var digits := Decimal(n);
    if n < 10 {
      assert digits[..0] == [];
    } else {
      IsItsDecimal(n / 10);
      assert digits[..|digits| - 1] == Decimal(n / 10);
      assert ValueOf(digits) == 10 * (n / 10) + n % 10;
      assert |Decimal(n / 10)| == 1 ==> Decimal(n / 10)[0] != 0x30 by {
        assert Decimal(n / 10)[..0] == [];
      }
    }
  }

  // The file

  /** The header with an offset in its place and sixty-four zeros for its digest. */
  function Unsealed(t: Template, offset: nat): bytes {
    t.before + Decimal(offset) + t.between + DIGEST_KEY + Repeat(0x30, 64) + t.after
  }

  /** The offset is where the first block behind its own header begins. */
  predicate Lands(t: Template, offset: nat) {
    offset % 64 == 0 && 12 + |Unsealed(t, offset)| <= offset < 12 + |Unsealed(t, offset)| + 64
  }

  /** Sixty-four characters behind the first digest key are the digest of the header in which they are zeros. */
  predicate IsSealed(header: bytes, t: Template, offset: nat, at: nat, codec: Codec) {
    var plain, from := Unsealed(t, offset), at + |DIGEST_KEY|;
    && OccursAt(plain, DIGEST_KEY, at) && (forall k :: 0 <= k < at ==> !OccursAt(plain, DIGEST_KEY, k))
    && from + 64 <= |plain|
    && header == plain[..from] + codec.sha(plain[..from] + Repeat(0x30, 64) + plain[from + 64..]) + plain[from + 64..]
  }

  /** Magic, version, the header's length, the header, spaces, and the payload from the offset on. */
  predicate IsFile(file: bytes, version: nat, header: bytes, offset: nat, payload: bytes) {
    && 12 + |header| <= offset && |file| == offset + |payload|
    && file[..4] == [0x4B, 0x56, 0x58, 0x31] && U32(file, 4) == version && U32(file, 8) == |header|
    && file[12..12 + |header|] == header
    && (forall i :: 12 + |header| <= i < offset ==> file[i] == 0x20)
    && file[offset..] == payload
  }

  lemma {:induction false} SpacesFill(header: bytes, version: nat, offset: nat, payload: bytes)
    requires |header| < TWO_TO_THE_32 && version < TWO_TO_THE_32 && offset >= PREAMBLE + |header|
    ensures IsFile(Assemble(header, version, offset, payload), version, header, offset, payload)
  {
    hide U32, Le, Pow256, ToLe;
    WordSizes();
    FrameFields(header, version, offset, payload);
    var file := Assemble(header, version, offset, payload);
    var pad := Repeat(0x20, offset - (PREAMBLE + |header|));
    assert file == (MAGIC + ToLe(version, 4) + ToLe(|header|, 4) + header) + pad + payload;
    forall i | 12 + |header| <= i < offset
      ensures file[i] == 0x20
    {
      assert file[i] == pad[i - (12 + |header|)];
    }
  }

  /** Two files of one shape are one file. */
  lemma OneFile(a: bytes, b: bytes, version: nat, header: bytes, offset: nat, payload: bytes)
    requires IsFile(a, version, header, offset, payload) && IsFile(b, version, header, offset, payload)
    ensures a == b
  {
    assert U32(a, 4) == U32(b, 4) && U32(a, 8) == U32(b, 8);
    SameWord(a, b, 4);
    SameWord(a, b, 8);
    forall i | 0 <= i < |a|
      ensures a[i] == b[i]
    {
      if i < 4 {
        assert a[i] == a[..4][i] && b[i] == b[..4][i];
      } else if 12 <= i < 12 + |header| {
        assert a[i] == a[12..12 + |header|][i - 12] && b[i] == b[12..12 + |header|][i - 12];
      } else if i >= offset {
        assert a[i] == a[offset..][i - offset] && b[i] == b[offset..][i - offset];
      }
    }
  }

  lemma SameWord(a: bytes, b: bytes, at: nat)
    requires at + 4 <= |a| && at + 4 <= |b| && U32(a, at) == U32(b, at)
    ensures forall i :: at <= i < at + 4 ==> a[i] == b[i]
  {
    OneLe(a[at..at + 4], b[at..at + 4]);
    assert forall i :: at <= i < at + 4 ==> a[i] == a[at..at + 4][i - at] && b[i] == b[at..at + 4][i - at];
  }

  lemma {:induction false} OneLe(a: bytes, b: bytes)
    requires |a| == |b| && Le(a) == Le(b)
    ensures a == b
    decreases |a|
  {
    if a != [] {
      assert a[0] as int == Le(a) % 0x100 && b[0] as int == Le(b) % 0x100;
      OneLe(a[1..], b[1..]);
      assert a == [a[0]] + a[1..] && b == [b[0]] + b[1..];
    }
  }

  /** The header settled on, at the least offset that lands behind it, and where its digest lies. */
  lemma SealsExactly(t: Template, codec: Codec) returns (header: bytes, offset: nat, at: nat)
    requires HeaderFits(t) && forall x :: HexDigest(codec.sha, x)
    ensures SealedHeader(t, codec) == Success((header, offset))
    ensures Lands(t, offset) && forall other: nat :: Lands(t, other) ==> offset <= other
    ensures IsSealed(header, t, offset, at, codec) && |header| == |Unsealed(t, offset)|
  {
    hide Find, OccursAt, Settle, Decimal, Align, HexDigest;
    var plain, settled := SettlesWithinThree(t);
    assert Settle(t, 0, MAX_OFFSET_PASSES).Extract() == (plain, settled);
    IntegrityOccurs(t, settled, ZERO_DIGEST);
    assert plain == Unsealed(t, settled);
    var found := Find(plain, DIGEST_KEY, 0);
    at := found.value;
    var from := at + |DIGEST_KEY|;
    var zeroed := Overwrite(plain, from, ZERO_DIGEST);
    assert DigestPlaceholder(plain) == Success((zeroed, from));
    assert HexDigest(codec.sha, zeroed);
    DigestLength(codec.sha, zeroed);
    header, offset := Overwrite(plain, from, codec.sha(zeroed)), settled;
    LandsIs(t, settled);
    forall other: nat | Lands(t, other)
      ensures offset <= other
    {
      LandsIs(t, other);
    }
  }

  lemma DigestLength(sha: bytes -> bytes, x: bytes)
    requires HexDigest(sha, x)
    ensures |sha(x)| == 64
  {
  }

  lemma LandsIs(t: Template, offset: nat)
    ensures Render(t, offset, ZERO_DIGEST) == Unsealed(t, offset)
    ensures Lands(t, offset) <==> offset == Align(PREAMBLE + |Render(t, offset, ZERO_DIGEST)|)
  {
    hide Decimal;
  }

  /** Writing yields exactly this file, or is refused because the header is too long for its length field. */
  lemma WritesExactly(t: Template, payload: bytes, version: nat, codec: Codec, file: bytes) returns (header: bytes, offset: nat, at: nat)
    requires HeaderFits(t) && version < TWO_TO_THE_32 && forall x :: HexDigest(codec.sha, x)
    ensures Lands(t, offset) && forall other: nat :: Lands(t, other) ==> offset <= other
    ensures IsSealed(header, t, offset, at, codec)
    ensures Written(t, payload, version, codec) == Success(file) <==>
      |header| < 0x1_0000_0000 && IsFile(file, version, header, offset, payload)
    ensures Written(t, payload, version, codec) == Failure(HeaderTooLong) <==> |header| >= 0x1_0000_0000
  {
    hide SealedHeader, Lands, IsSealed, Assemble, HexDigest, IsFile;
    header, offset, at := SealsExactly(t, codec);
    assert offset >= PREAMBLE + |header| by {
      LandsBehind(t, offset);
    }
    if |header| < TWO_TO_THE_32 {
      SpacesFill(header, version, offset, payload);
      if IsFile(file, version, header, offset, payload) {
        OneFile(file, Assemble(header, version, offset, payload), version, header, offset, payload);
      }
    }
  }

  lemma LandsBehind(t: Template, offset: nat)
    requires Lands(t, offset)
    ensures offset >= 12 + |Unsealed(t, offset)|
  {
  }

  // The parts of a segmented payload

  /** Each part begins at the first block boundary behind the part before it. */
  function StartOf(parts: seq<Part>, i: nat): nat
    requires i < |parts|
  {
    if i == 0 then 0 else Align(StartOf(parts, i - 1) + |parts[i - 1].1|)
  }

  function EndOf(parts: seq<Part>): nat {
    if parts == [] then 0 else StartOf(parts, |parts| - 1) + |parts[|parts| - 1].1|
  }

  predicate SizesAgree(parts: seq<Part>) {
    forall i :: 0 <= i < |parts| ==> parts[i].0.nbytes == |parts[i].1|
  }

  /** Row and bytes of one part. */
  predicate IsPlaced(parts: seq<Part>, i: nat, row: Segment, payload: bytes, sha: bytes -> bytes)
    requires i < |parts|
  {
    var (seg, data) := parts[i];
    var start := StartOf(parts, i);
    && row == seg.(offset := start, sha256 := sha(data))
    && start + |data| <= |payload| && payload[start..start + |data|] == data
  }

  predicate InPart(parts: seq<Part>, i: nat, p: int)
    requires i < |parts|
  {
    StartOf(parts, i) <= p < StartOf(parts, i) + |parts[i].1|
  }

  /** The whole payload: the parts where their rows say, zeros wherever there is none, and nothing behind the last. */
  ghost predicate IsPayload(parts: seq<Part>, placed: seq<Segment>, payload: bytes, sha: bytes -> bytes) {
    && |placed| == |parts| && |payload| == EndOf(parts)
    && (forall i :: 0 <= i < |parts| ==> IsPlaced(parts, i, placed[i], payload, sha))
    && forall p :: 0 <= p < |payload| && (forall i :: 0 <= i < |parts| ==> !InPart(parts, i, p)) ==> payload[p] == 0
  }

  lemma {:induction false} StartsGrow(parts: seq<Part>, part: Part, i: nat)
    requires i < |parts|
    ensures StartOf(parts + [part], i) == StartOf(parts, i)
  {
    hide Align;
    if i > 0 {
      StartsGrow(parts, part, i - 1);
    }
  }

  lemma {:induction false} StartBehind(parts: seq<Part>, part: Part)
    ensures StartOf(parts + [part], |parts|) == EndOf(parts) + Padding(EndOf(parts))
    ensures EndOf(parts + [part]) == EndOf(parts) + Padding(EndOf(parts)) + |part.1|
  {
    hide Align, Padding;
    var more := parts + [part];
    assert more[|parts|] == part;
    if parts != [] {
      assert more[|parts| - 1] == parts[|parts| - 1];
      StartsGrow(parts, part, |parts| - 1);
      PaddingAligns(EndOf(parts));
    }
  }

  lemma PaddingAligns(n: nat)
    ensures Align(n) == n + Padding(n)
  {
  }

  lemma PayloadGrows(parts: seq<Part>, placed: seq<Segment>, payload: bytes, part: Part, sha: bytes -> bytes)
    requires IsPayload(parts, placed, payload, sha)
    ensures
      var padded := payload + Repeat(0, Padding(|payload|));
      IsPayload(parts + [part], placed + [part.0.(offset := |padded|, sha256 := sha(part.1))], padded + part.1, sha)
  {
    hide StartOf, Padding;
    StartBehind(parts, part);
    var padded := payload + Repeat(0, Padding(|payload|));
    var more, parts' := padded + part.1, parts + [part];
    var placed' := placed + [part.0.(offset := |padded|, sha256 := sha(part.1))];
    forall i | 0 <= i < |parts'|
      ensures IsPlaced(parts', i, placed'[i], more, sha)
    {
      if i < |parts| {
        StartsGrow(parts, part, i);
        assert IsPlaced(parts, i, placed[i], payload, sha);
        var start := StartOf(parts, i);
        assert more[start..start + |parts[i].1|] == payload[start..start + |parts[i].1|];
      } else {
        assert more[|padded|..|padded| + |part.1|] == part.1;
      }
    }
    forall p | 0 <= p < |more| && forall i :: 0 <= i < |parts'| ==> !InPart(parts', i, p)
      ensures more[p] == 0
    {
      assert !InPart(parts', |parts|, p);
      if p < |payload| {
        forall i | 0 <= i < |parts|
          ensures !InPart(parts, i, p)
        {
          StartsGrow(parts, part, i);
          assert !InPart(parts', i, p);
        }
      }
    }
  }

  lemma {:induction false} PlacesFrom(parts: seq<Part>, done: seq<Part>, placed: seq<Segment>, payload: bytes, sha: bytes -> bytes)
    requires IsPayload(done, placed, payload, sha)
    ensures var r := PlaceFrom(parts, placed, payload, sha);
      && (r.Success? <==> SizesAgree(parts))
      && (r.Failure? ==> r.error == SizeDisagrees)
      && (r.Success? ==> IsPayload(done + parts, r.value.0, r.value.1, sha))
    decreases |parts|
  {
    hide IsPayload, Repeat, Padding;
    if parts == [] {
      assert done + parts == done;
    } else {
      var (seg, data) := parts[0];
      assert parts[0] == (seg, data);
      assert parts == [parts[0]] + parts[1..];
      if seg.nbytes == |data| {
        var padded := payload + Repeat(0, Padding(|payload|));
        PayloadGrows(done, placed, payload, parts[0], sha);
        assert done + parts == (done + [parts[0]]) + parts[1..];
        PlacesFrom(parts[1..], done + [parts[0]], placed + [seg.(offset := |padded|, sha256 := sha(data))], padded + data, sha);
        assert SizesAgree(parts[1..]) ==> SizesAgree(parts) by {
          assert forall i :: 1 <= i < |parts| ==> parts[i] == parts[1..][i - 1];
        }
      }
    }
  }

  /** A part that no table accepts: the faults of a row that do not depend on where it is placed. */
  ghost predicate PartFails(parts: seq<Part>, i: nat)
    requires i < |parts|
  {
    || (exists j :: 0 <= j < i && parts[j].0.name == parts[i].0.name)
    || Faulty(parts[i].0.(offset := 0))
  }

  ghost predicate Faulty(seg: Segment) {
    exists why :: Rank(why) < 10 && HasFault([seg], 0, PayloadFrame(0), why)
  }

  lemma AloneExactly(parts: seq<Part>)
    ensures SoundAlone(parts) <==> forall i :: 0 <= i < |parts| ==> !PartFails(parts, i)
  {
    hide CheckOne, Faulty;
    forall i | 0 <= i < |parts|
      ensures CheckOne(parts[i].0.(offset := 0)).Some? <==> Faulty(parts[i].0.(offset := 0))
    {
      OneExactly(parts[i].0.(offset := 0));
    }
    if forall i :: 0 <= i < |parts| ==> !PartFails(parts, i) {
      forall i | 0 <= i < |parts|
        ensures CheckOne(parts[i].0.(offset := 0)).None?
      {
        assert !PartFails(parts, i);
      }
      forall i, j | 0 <= i < j < |parts|
        ensures parts[i].0.name != parts[j].0.name
      {
        assert !PartFails(parts, j);
      }
    }
  }

  lemma OneExactly(seg: Segment)
    ensures CheckOne(seg).Some? <==> Faulty(seg)
  {
    hide IsSpace, Product;
    assert [seg][0] == seg;
    assert forall why :: HasFault([seg], 0, PayloadFrame(0), why) && Rank(why) < 10 ==> CheckOne(seg).Some?;
    if CheckOne(seg).Some? {
      assert Rank(CheckOne(seg).value) < 10 && HasFault([seg], 0, PayloadFrame(0), CheckOne(seg).value);
    }
  }

  /**
   * Writing segments: refused without parts, for a row whose size is not that of its data, and for a part that no
   * table accepts; otherwise the parts are laid out as above and written with the table that says so.
   */
  lemma SegmentsExactly(parts: seq<Part>, codec: Codec) returns (placed: seq<Segment>, payload: bytes)
    ensures parts == [] ==> SegmentsWritten(parts, codec) == Failure(NoParts)
    ensures parts != [] && !SizesAgree(parts) ==> SegmentsWritten(parts, codec) == Failure(SizeDisagrees)
    ensures parts != [] && SizesAgree(parts) ==>
      && IsPayload(parts, placed, payload, codec.sha)
      && SegmentsWritten(parts, codec) ==
           if exists i :: 0 <= i < |parts| && PartFails(parts, i) then Failure(InvalidTable)
           else Written(codec.render(SegmentedBlob(placed, payload, codec)), payload, 2, codec)
  {
    hide PlaceFrom, IsPayload, SoundAlone, PartFails, SizesAgree, Written, Acceptable;
    placed, payload := [], [];
    NothingPlaced(codec.sha);
    PlacesFrom(parts, [], [], [], codec.sha);
    assert [] + parts == parts;
    if parts != [] && SizesAgree(parts) {
      var (table, content) := PlaceFrom(parts, [], [], codec.sha).value;
      assert PlaceFrom(parts, [], [], codec.sha) == Success((table, content));
      placed, payload := table, content;
      PlacementAlwaysValidates(parts, placed, payload, codec.sha);
      AloneExactly(parts);
    }
  }

  lemma NothingPlaced(sha: bytes -> bytes)
    ensures IsPayload([], [], [], sha)
  {
  }

  /** Writing an opaque payload: refused for a format of nothing but white space, otherwise described as it is and written. */
  lemma OpaqueExactly(payload: bytes, format: string, codec: Codec)
    ensures OpaqueWritten(payload, format, codec) ==
      if forall i :: 0 <= i < |format| ==> IsSpace(format[i]) then Failure(BlankFormat)
      else Written(
             codec.render(Blob(Some("opaque"), Number(0), Number(|payload|), Some(codec.sha(payload)), Rows([]), None)),
             payload, 1, codec)
  {
  }
}
