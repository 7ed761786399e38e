/** Placement, and what a written container gives back: `kv_rosetta/container.py`. */
module ContainerRoundTrip {
  import opened Wrappers
  import opened Bytes
  import opened Sequences
  import opened Sorting
  import opened Segments
  import opened Container
  import opened ContainerProperties

  // Placement

  /** Row and data agree, and the payload holds the data where the row says. */
  predicate LaidRight(part: Part, seg: Segment, payload: bytes, sha: bytes -> bytes) {
    && seg == part.0.(offset := seg.offset, sha256 := sha(part.1))
    && seg.nbytes == |part.1|
    && seg.offset >= 0 && seg.offset % ALIGNMENT == 0 && seg.End() <= |payload|
    && payload[seg.offset..seg.End()] == part.1
  }

  predicate Laid(parts: seq<Part>, placed: seq<Segment>, payload: bytes, sha: bytes -> bytes) {
    && |placed| == |parts|
    && (forall i :: 0 <= i < |parts| ==> LaidRight(parts[i], placed[i], payload, sha))
    && Pairwise(placed)
  }

  lemma LaidRightGrows(part: Part, seg: Segment, payload: bytes, more: bytes, sha: bytes -> bytes)
    requires LaidRight(part, seg, payload, sha)
    ensures LaidRight(part, seg, payload + more, sha)
  {
    assert (payload + more)[seg.offset..seg.End()] == payload[seg.offset..seg.End()];
  }

  lemma LaidSnoc(parts: seq<Part>, placed: seq<Segment>, payload: bytes, part: Part, sha: bytes -> bytes)
    requires Laid(parts, placed, payload, sha) && part.0.nbytes == |part.1|
    ensures var padded := payload + Repeat(0, Padding(|payload|));
      Laid(parts + [part], placed + [part.0.(offset := |padded|, sha256 := sha(part.1))], padded + part.1, sha)
  {
    hide Repeat, Padding;
    var zeros := Repeat(0, Padding(|payload|));
    var padded := payload + zeros;
    var seg := part.0.(offset := |padded|, sha256 := sha(part.1));
    var placed', parts' := placed + [seg], parts + [part];
    forall i | 0 <= i < |parts|
      ensures LaidRight(parts[i], placed[i], padded + part.1, sha)
      ensures placed[i].End() <= |payload|
    {
      LaidRightGrows(parts[i], placed[i], payload, zeros, sha);
      LaidRightGrows(parts[i], placed[i], padded, part.1, sha);
    }
    assert (padded + part.1)[|padded|..|padded| + |part.1|] == part.1;
    assert LaidRight(part, seg, padded + part.1, sha);
  }

  lemma {:induction false} PlaceLays(parts: seq<Part>, done: seq<Part>, placed: seq<Segment>, payload: bytes, sha: bytes -> bytes)
    requires Laid(done, placed, payload, sha)
    requires PlaceFrom(parts, placed, payload, sha).Success?
    ensures var (table, content) := PlaceFrom(parts, placed, payload, sha).value; Laid(done + parts, table, content, sha)
    decreases |parts|
  {
    hide Laid, Repeat, Padding;
    if parts == [] {
      assert done + parts == done;
    } else {
      var (seg, data) := parts[0];
      assert parts[0] == (seg, data);
      var padded := payload + Repeat(0, Padding(|payload|));
      LaidSnoc(done, placed, payload, parts[0], sha);
      assert done + parts == (done + [parts[0]]) + parts[1..];
      PlaceLays(parts[1..], done + [parts[0]], placed + [seg.(offset := |padded|, sha256 := sha(data))], padded + data, sha);
    }
  }

  lemma NothingLaid(sha: bytes -> bytes)
    ensures Laid([], [], [], sha)
  {
  }

  /** The parts a caller may hand in: each row sound by itself, no name used twice. */
  predicate SoundAlone(parts: seq<Part>) {
    && (forall i :: 0 <= i < |parts| ==> CheckOne(parts[i].0.(offset := 0)) == None)
    && (forall i, j :: 0 <= i < j < |parts| ==> parts[i].0.name != parts[j].0.name)
  }

  /**
   * Placement never fails the geometric half of `validate`: the table `write_segments` builds is
   * accepted exactly when its rows are sound by themselves and its names are distinct.
   */
  lemma {:induction false} PlacementAlwaysValidates(parts: seq<Part>, placed: seq<Segment>, payload: bytes, sha: bytes -> bytes)
    requires parts != [] && PlaceFrom(parts, [], [], sha) == Success((placed, payload))
    ensures Laid(parts, placed, payload, sha)
    ensures Acceptable(placed, PayloadFrame(|payload|)) <==> SoundAlone(parts)
  {
    hide CheckOne, Sorted, PlaceFrom, NeighboursApart;
    NothingLaid(sha);
    PlaceLays(parts, [], [], [], sha);
    assert [] + parts == parts;
    var frame := PayloadFrame(|payload|);
    forall i | 0 <= i < |parts|
      ensures CheckOne(placed[i]) == CheckOne(parts[i].0.(offset := 0))
      ensures CheckPlace(placed[i], frame) == None
      ensures placed[i].name == parts[i].0.name
    {
      assert LaidRight(parts[i], placed[i], payload, sha);
      OffsetDoesNotMatter(parts[i].0, placed[i].offset, placed[i].sha256);
    }
    if SoundAlone(parts) {
      assert RowsSound(placed, frame);
    }
    if RowsSound(placed, frame) {
      forall i, j | 0 <= i < j < |parts|
        ensures parts[i].0.name != parts[j].0.name
      {
        assert RowSound(placed, j, frame);
      }
      forall i | 0 <= i < |parts|
        ensures CheckOne(parts[i].0.(offset := 0)) == None
      {
        assert RowSound(placed, i, frame);
      }
      NeighbourCheckCoversAllPairs(placed, frame);
      PairwiseIsAllApart(parts, placed, payload, sha);
    }
  }

  lemma OffsetDoesNotMatter(seg: Segment, offset: nat, sha256: bytes)
    ensures CheckOne(seg.(offset := offset, sha256 := sha256)) == CheckOne(seg.(offset := 0))
  {
  }

  lemma PairwiseIsAllApart(parts: seq<Part>, placed: seq<Segment>, payload: bytes, sha: bytes -> bytes)
    requires Laid(parts, placed, payload, sha)
    ensures AllApart(placed)
  {
    forall i, j | 0 <= i < j < |placed|
      ensures Apart(placed[i], placed[j])
    {
      assert LaidRight(parts[i], placed[i], payload, sha);
      assert placed[i].End() <= placed[j].offset;
    }
  }

  // The sealed header

  /** No byte string `"header_sha256":"` stands before the one of `integrity`. */
  ghost predicate KeyComesFirst(t: Template, offset: nat) {
    forall k :: 0 <= k < IntegrityAt(t, offset) ==> !OccursAt(Render(t, offset, ZERO_DIGEST), DIGEST_KEY, k)
  }

  lemma {:induction false} FindIs(haystack: bytes, needle: bytes, at: nat)
    requires OccursAt(haystack, needle, at)
    requires forall k :: 0 <= k < at ==> !OccursAt(haystack, needle, k)
    ensures Find(haystack, needle, 0) == Some(at)
  {
    hide OccursAt;
    var found := Find(haystack, needle, 0);
    assert found.Some?;
    assert !(found.value < at) && !(at < found.value);
  }

  /** Bytes past the end of an occurrence do not decide whether it is the first. */
  lemma {:induction false} FindIgnoresWhatFollows(one: bytes, other: bytes, needle: bytes, at: nat)
    requires Find(one, needle, 0) == Some(at) && at + |needle| <= |one|
    requires |one| == |other| && one[..at + |needle|] == other[..at + |needle|]
    ensures Find(other, needle, 0) == Some(at)
  {
    hide Find, OccursAt;
    forall k | 0 <= k <= at
      ensures OccursAt(other, needle, k) == OccursAt(one, needle, k)
    {
      OccursInPrefix(one, other, needle, at + |needle|, k);
    }
    FindIs(other, needle, at);
  }

  lemma OccursInPrefix(one: bytes, other: bytes, needle: bytes, end: nat, k: nat)
    requires |one| == |other| && k + |needle| <= end <= |one| && one[..end] == other[..end]
    ensures OccursAt(other, needle, k) == OccursAt(one, needle, k)
  {
    SamePrefix(one, other, end, k, k + |needle|);
  }

  lemma SamePrefix(one: bytes, other: bytes, end: nat, a: nat, b: nat)
    requires a <= b <= end <= |one| && end <= |other| && one[..end] == other[..end]
    ensures one[a..b] == other[a..b]
  {
    SliceOfSlice(one, 0, end, a, b);
    SliceOfSlice(other, 0, end, a, b);
  }

  lemma IntegrityOccurs(t: Template, offset: nat, digest: bytes)
    requires |digest| == DIGEST_DIGITS
    ensures var header, at := Render(t, offset, digest), IntegrityAt(t, offset);
      && OccursAt(header, DIGEST_KEY, at)
      && at + |DIGEST_KEY| + DIGEST_DIGITS <= |header| == |Render(t, offset, ZERO_DIGEST)|
      && header[at + |DIGEST_KEY|..][..DIGEST_DIGITS] == digest
  {
    hide Decimal;
    var front := t.before + Decimal(offset) + t.between;
    var header := Render(t, offset, digest);
    assert header == front + DIGEST_KEY + digest + t.after;
    assert header[|front|..|front| + |DIGEST_KEY|] == DIGEST_KEY;
    assert header[|front| + |DIGEST_KEY|..] == digest + t.after;
  }

  lemma OverwriteTwice(header: bytes, at: nat, one: bytes, two: bytes)
    requires at + DIGEST_DIGITS <= |header| && |one| == DIGEST_DIGITS
    ensures |Overwrite(header, at, one)| == |header|
    ensures Overwrite(header, at, one)[..at] == header[..at]
    ensures Overwrite(header, at, one)[at..][..DIGEST_DIGITS] == one
    ensures Overwrite(header, at, one)[at + DIGEST_DIGITS..] == header[at + DIGEST_DIGITS..]
    ensures Overwrite(Overwrite(header, at, one), at, two) == Overwrite(header, at, two)
  {
    var written := Overwrite(header, at, one);
    assert written[at..] == one + header[at + DIGEST_DIGITS..];
    assert written[at + DIGEST_DIGITS..] == header[at + DIGEST_DIGITS..];
  }

  predicate IsHex(b: byte) {
    0x30 <= b <= 0x39 || 0x61 <= b <= 0x66
  }

  /** The digest of x is sixty-four hexadecimal digits. */
  predicate HexDigest(sha: bytes -> bytes, x: bytes) {
    |sha(x)| == DIGEST_DIGITS && forall i :: 0 <= i < DIGEST_DIGITS ==> IsHex(sha(x)[i])
  }

  /**
   * What the stored header hashes to: zeroing it again gives back the bytes that were hashed,
   * and the field `integrity` holds their digest if no earlier key took its place.
   */
  lemma SealedAgain(t: Template, codec: Codec, header: bytes, offset: nat) returns (zeroed: bytes, at: nat)
    requires HeaderFits(t)
    requires forall x :: HexDigest(codec.sha, x)
    requires SealedHeader(t, codec) == Success((header, offset))
    ensures DigestPlaceholder(header) == Success((zeroed, at + |DIGEST_KEY|))
    ensures Settle(t, 0, MAX_OFFSET_PASSES) == Success((Render(t, offset, ZERO_DIGEST), offset))
    ensures Find(Render(t, offset, ZERO_DIGEST), DIGEST_KEY, 0) == Some(at)
    ensures at <= IntegrityAt(t, offset)
    ensures |header| == |Render(t, offset, ZERO_DIGEST)| && offset == Align(PREAMBLE + |header|)
    ensures header == Overwrite(Render(t, offset, ZERO_DIGEST), at + |DIGEST_KEY|, codec.sha(zeroed))
    ensures KeyComesFirst(t, offset) <==> at == IntegrityAt(t, offset)
  {
    hide Render, Find, OccursAt, Settle, Overwrite, Decimal, Align;
    var rendered, settled := SettlesWithinThree(t);
    assert Settle(t, 0, MAX_OFFSET_PASSES).Extract() == (rendered, settled);
    IntegrityOccurs(t, settled, ZERO_DIGEST);
    var found := Find(rendered, DIGEST_KEY, 0);
    assert found.Some?;
    at := found.value;
    zeroed := Overwrite(rendered, at + |DIGEST_KEY|, ZERO_DIGEST);
    assert DigestPlaceholder(rendered) == Success((zeroed, at + |DIGEST_KEY|));
    assert HexDigest(codec.sha, zeroed);
    assert at <= IntegrityAt(t, settled);
    OverwriteTwice(rendered, at + |DIGEST_KEY|, codec.sha(zeroed), ZERO_DIGEST);
    assert header == Overwrite(rendered, at + |DIGEST_KEY|, codec.sha(zeroed));
    FindIgnoresWhatFollows(rendered, header, DIGEST_KEY, at);
  }

  // The framed file

  lemma FrameFields(header: bytes, version: nat, offset: nat, payload: bytes)
    requires |header| < TWO_TO_THE_32 && version < TWO_TO_THE_32
    requires offset >= PREAMBLE + |header|
    ensures var file := Assemble(header, version, offset, payload);
      && |file| == offset + |payload| && file[..4] == MAGIC
      && U32(file, 4) == version && U32(file, 8) == |header|
      && file[PREAMBLE..PREAMBLE + |header|] == header && file[offset..] == payload
  {
    hide Le, Pow256, ToLe, Repeat;
    WordSizes();
    var v, l := ToLe(version, 4), ToLe(|header|, 4);
    var pad := Repeat(0x20, offset - (PREAMBLE + |header|));
    var file := Assemble(header, version, offset, payload);
    assert file == MAGIC + v + l + header + pad + payload;
    assert file[4..8] == v;
    assert file[8..12] == l;
  }

  /**
   * What is asked of the parser for a header that was written. With the key of `integrity` in its place it
   * gives back the object that was encoded: `blob`, and the digits now stored there. With that key overwritten
   * it finds no `integrity`, or no header at all.
   */
  predicate ReadsBack(codec: Codec, header: bytes, blob: Blob, at: nat) {
    && at + |DIGEST_KEY| + DIGEST_DIGITS <= |header|
    && if OccursAt(header, DIGEST_KEY, at)
       then codec.loads(header) == Loaded(Header(blob, Some(header[at + |DIGEST_KEY|..][..DIGEST_DIGITS])))
       else codec.loads(header) != ParserRaises && (codec.loads(header).Loaded? ==> codec.loads(header).header.integrity.None?)
  }

  predicate Describes(blob: Blob, offset: nat, payload: bytes, codec: Codec) {
    && blob.encoding.Some? && blob.offset == Number(offset)
    && blob.nbytes == Number(|payload|) && blob.sha256 == Some(codec.sha(payload))
  }

  /** Everything known about a file `_write` produced, gathered once. */
  predicate WrittenFrom(t: Template, payload: bytes, version: nat, codec: Codec, file: bytes, header: bytes, offset: nat, blob: Blob) {
    && HeaderFits(t)
    && (version == CONTAINER_VERSION || version == SEGMENTED_VERSION)
    && Written(t, payload, version, codec) == Success(file)
    && SealedHeader(t, codec) == Success((header, offset))
    && ReadsBack(codec, header, blob, IntegrityAt(t, offset))
    && Describes(blob, offset, payload, codec)
  }

  lemma WrittenReads(t: Template, payload: bytes, version: nat, codec: Codec, file: bytes, header: bytes, offset: nat, blob: Blob)
    requires forall x :: HexDigest(codec.sha, x)
    requires WrittenFrom(t, payload, version, codec, file, header, offset, blob)
    ensures ReadHeader(file, codec) == FromParser(codec.loads(header), |header|)
    ensures |file| == offset + |payload| && file[offset..] == payload
    ensures ReadAt(file, 0, PREAMBLE + |header|)[PREAMBLE..] == header
    ensures offset % ALIGNMENT == 0 && offset >= PREAMBLE + |header| && FitsPosition(offset)
  {
    hide Assemble, SealedHeader, U32, Describes, ReadAt, Align, Overwrite, Find, DigestPlaceholder, Render, Settle, IntegrityAt, ReadsBack,
      HexDigest, FromParser;
    assert SealedHeader(t, codec).Extract() == (header, offset);
    var zeroed, at := SealedAgain(t, codec, header, offset);
    assert file == Assemble(header, version, offset, payload);
    FrameFields(header, version, offset, payload);
    HeaderPart(file, header);
    OffsetFits(|header|);
  }

  lemma OffsetFits(length: nat)
    requires length < TWO_TO_THE_32
    ensures FitsPosition(Align(PREAMBLE + length))
  {
  }

  lemma HeaderPart(file: bytes, header: bytes)
    requires |file| >= PREAMBLE + |header| && file[PREAMBLE..PREAMBLE + |header|] == header
    ensures ReadAt(file, 0, PREAMBLE + |header|)[PREAMBLE..] == header
  {
    assert ReadAt(file, 0, PREAMBLE + |header|) == file[..PREAMBLE + |header|];
    assert file[..PREAMBLE + |header|][PREAMBLE..] == file[PREAMBLE..PREAMBLE + |header|];
  }

  /** The first key, where there is an earlier one than that of `integrity`, ends its sixty-four characters before it. */
  predicate FirstKeyIsClear(t: Template, offset: nat) {
    var first := Find(Render(t, offset, ZERO_DIGEST), DIGEST_KEY, 0);
    first.Some? && first.value + |DIGEST_KEY| + DIGEST_DIGITS <= IntegrityAt(t, offset)
  }

  /** A digest stored after an earlier key with a shorter value runs over the key of `integrity`. */
  lemma KeyDestroyed(rendered: bytes, header: bytes, first: nat, integrity: nat, digest: bytes)
    requires OccursAt(rendered, DIGEST_KEY, first) && OccursAt(rendered, DIGEST_KEY, integrity)
    requires first < integrity < first + |DIGEST_KEY| + DIGEST_DIGITS <= |rendered|
    requires |digest| == DIGEST_DIGITS && forall i :: 0 <= i < DIGEST_DIGITS ==> IsHex(digest[i])
    requires header == Overwrite(rendered, first + |DIGEST_KEY|, digest)
    ensures !OccursAt(header, DIGEST_KEY, integrity)
  {
    hide OccursAt;
    var gap := integrity - first;
    if gap >= |DIGEST_KEY| {
      assert header[integrity] == digest[gap - |DIGEST_KEY|];
      OtherLetter(header, integrity, 0);
    } else {
      // the two keys overlap, which only the closing quote of one and the opening quote of the other can do
      LetterOf(rendered, first, gap);
      LetterOf(rendered, integrity, 0);
      LetterOf(rendered, first, 15);
      LetterOf(rendered, integrity, 1);
      assert gap == 16;
      assert header[integrity + 1] == digest[0];
      OtherLetter(header, integrity, 1);
    }
  }

  lemma LetterOf(text: bytes, at: nat, k: nat)
    requires OccursAt(text, DIGEST_KEY, at) && k < |DIGEST_KEY|
    ensures text[at + k] == DIGEST_KEY[k]
  {
    assert text[at..at + |DIGEST_KEY|][k] == text[at + k];
  }

  lemma OtherLetter(text: bytes, at: nat, k: nat)
    requires k < |DIGEST_KEY| && at + k < |text| && text[at + k] != DIGEST_KEY[k]
    ensures !OccursAt(text, DIGEST_KEY, at)
  {
    if OccursAt(text, DIGEST_KEY, at) {
      LetterOf(text, at, k);
    }
  }

  /** Where the key of `integrity` still stands in the stored header, and what follows it. */
  lemma StoredKey(t: Template, codec: Codec, header: bytes, offset: nat, zeroed: bytes, at: nat)
    requires HexDigest(codec.sha, zeroed) && at <= IntegrityAt(t, offset)
    requires Find(Render(t, offset, ZERO_DIGEST), DIGEST_KEY, 0) == Some(at)
    requires |header| == |Render(t, offset, ZERO_DIGEST)|
    requires at + |DIGEST_KEY| <= |header| && header == Overwrite(Render(t, offset, ZERO_DIGEST), at + |DIGEST_KEY|, codec.sha(zeroed))
    ensures var slot := IntegrityAt(t, offset) + |DIGEST_KEY|;
      && slot + DIGEST_DIGITS <= |header|
      && (at == IntegrityAt(t, offset) ==> OccursAt(header, DIGEST_KEY, at) && header[slot..][..DIGEST_DIGITS] == codec.sha(zeroed))
      && (at < IntegrityAt(t, offset) && FirstKeyIsClear(t, offset) ==>
            OccursAt(header, DIGEST_KEY, IntegrityAt(t, offset)) && header[slot..][..DIGEST_DIGITS] == ZERO_DIGEST)
      && (at < IntegrityAt(t, offset) && !FirstKeyIsClear(t, offset) ==> !OccursAt(header, DIGEST_KEY, IntegrityAt(t, offset)))
  {
    hide Render, Overwrite, OccursAt, Find;
    var rendered, integrity := Render(t, offset, ZERO_DIGEST), IntegrityAt(t, offset);
    IntegrityOccurs(t, offset, ZERO_DIGEST);
    var digest := codec.sha(zeroed);
    OverwriteTwice(rendered, at + |DIGEST_KEY|, digest, ZERO_DIGEST);
    if at == integrity {
      OccursInPrefix(rendered, header, DIGEST_KEY, at + |DIGEST_KEY|, at);
    } else if FirstKeyIsClear(t, offset) {
      var clear := at + |DIGEST_KEY| + DIGEST_DIGITS;
      SuffixSlice(header, rendered, clear, integrity);
      SuffixSlice(header, rendered, clear, integrity + |DIGEST_KEY|);
      OccursInSuffix(rendered, header, DIGEST_KEY, integrity);
    } else {
      KeyDestroyed(rendered, header, at, integrity, digest);
    }
  }

  lemma OccursInSuffix(one: bytes, other: bytes, needle: bytes, k: nat)
    requires k <= |one| == |other| && one[k..] == other[k..] && OccursAt(one, needle, k)
    ensures OccursAt(other, needle, k)
  {
    assert one[k..k + |needle|] == one[k..][..|needle|];
    assert other[k..k + |needle|] == other[k..][..|needle|];
  }

  /**
   * A written header passes inspection if and only if no `"header_sha256":"` comes before the one
   * of `integrity`: a manifest that holds such a key earlier has the digest stored in its place. If
   * the earlier value has room for the digest the stored one does not match, else `integrity` is gone.
   * (No header is taken to hash to zeros.)
   */
  lemma WrittenInspects(t: Template, payload: bytes, version: nat, codec: Codec, file: bytes, header: bytes, offset: nat, blob: Blob)
    requires forall x :: HexDigest(codec.sha, x)
    requires forall z, v :: DigestPlaceholder(header) == Success((z, v)) ==> codec.sha(z) != ZERO_DIGEST
    requires WrittenFrom(t, payload, version, codec, file, header, offset, blob)
    ensures KeyComesFirst(t, offset) ==> Inspect(file, codec) == Success(blob)
    ensures !KeyComesFirst(t, offset) && FirstKeyIsClear(t, offset) ==> Inspect(file, codec) == Failure(HeaderMismatch)
    ensures !KeyComesFirst(t, offset) ==> Inspect(file, codec).Failure? && Inspect(file, codec).error != Raises
  {
    hide SealedHeader, Written, Find, OccursAt, Render, Settle, DigestPlaceholder, ReadHeader, Align, Decimal, Overwrite, ReadAt, FirstKeyIsClear, IntegrityAt;
    WrittenReads(t, payload, version, codec, file, header, offset, blob);
    var zeroed, at := SealedAgain(t, codec, header, offset);
    assert HexDigest(codec.sha, zeroed);
    StoredKey(t, codec, header, offset, zeroed, at);
  }

  lemma SuffixSlice(one: bytes, other: bytes, from: nat, at: nat)
    requires |one| == |other| && from <= at <= |one| && one[from..] == other[from..]
    ensures one[at..] == other[at..]
  {
    assert one[at..] == one[from..][at - from..];
    assert other[at..] == other[from..][at - from..];
  }

  // Main results

  /**
   * As long as the stored header loads with its blob, the payload comes back whole from `extract_payload` with every
   * chunk that reads anything, and with no other unless there is nothing to read.
   */
  lemma WrittenExtracts(t: Template, payload: bytes, version: nat, codec: Codec, file: bytes, header: bytes, offset: nat, blob: Blob, chunk: int)
    requires forall x :: HexDigest(codec.sha, x)
    requires WrittenFrom(t, payload, version, codec, file, header, offset, blob)
    requires codec.loads(header).Loaded? && codec.loads(header).header.blob == blob
    ensures Drain(file, offset, |payload|, chunk) == Complete(payload) <==> chunk > 0 || chunk == -1 || payload == []
    ensures Extracted(file, chunk, codec) == Success(payload) <==> chunk > 0 || chunk == -1 || payload == []
    ensures Open(file, codec) == Success(Artifact(blob, offset, payload))
  {
    hide SealedHeader, Written, IntegrityAt, Render, ReadHeader;
    WrittenReads(t, payload, version, codec, file, header, offset, blob);
    assert file[offset..offset + |payload|] == file[offset..];
    assert payload[..|payload|] == payload;
  }

  /** With its own digest key first, or with room for the digest after an earlier one, a written header loads with its blob. */
  lemma WrittenLoads(t: Template, payload: bytes, version: nat, codec: Codec, file: bytes, header: bytes, offset: nat, blob: Blob)
    requires forall x :: HexDigest(codec.sha, x)
    requires WrittenFrom(t, payload, version, codec, file, header, offset, blob)
    requires KeyComesFirst(t, offset) || FirstKeyIsClear(t, offset)
    ensures codec.loads(header).Loaded? && codec.loads(header).header.blob == blob
  {
    hide SealedHeader, Written, Find, OccursAt, Render, Settle, DigestPlaceholder, Align, Decimal, Overwrite, FirstKeyIsClear, IntegrityAt;
    var zeroed, at := SealedAgain(t, codec, header, offset);
    assert HexDigest(codec.sha, zeroed);
    StoredKey(t, codec, header, offset, zeroed, at);
  }

  /** A raw or opaque artifact, once written, passes `verify` exactly when its own digest key comes first. */
  lemma WrittenVerifies(t: Template, payload: bytes, version: nat, codec: Codec, file: bytes, header: bytes, offset: nat, blob: Blob)
    requires forall x :: HexDigest(codec.sha, x)
    requires forall z, v :: DigestPlaceholder(header) == Success((z, v)) ==> codec.sha(z) != ZERO_DIGEST
    requires WrittenFrom(t, payload, version, codec, file, header, offset, blob)
    requires blob.encoding != Some("segmented")
    ensures VerifyFile(file, codec) == Fine <==> KeyComesFirst(t, offset)
    ensures VerifyFile(file, codec) != Raised && VerifyHeader(file, codec) == VerifyFile(file, codec)
  {
    hide Inspect, Drain, SealedHeader, Written, KeyComesFirst, FirstKeyIsClear, ReadHeader;
    WrittenInspects(t, payload, version, codec, file, header, offset, blob);
    if KeyComesFirst(t, offset) {
      WrittenLoads(t, payload, version, codec, file, header, offset, blob);
      WrittenExtracts(t, payload, version, codec, file, header, offset, blob, VERIFY_CHUNK);
    }
  }

  lemma {:induction false} LaidSegmentsVerify(file: bytes, base: nat, parts: seq<Part>, placed: seq<Segment>, payload: bytes, sha: bytes -> bytes)
    requires |file| == base + |payload| && file[base..] == payload
    requires |placed| == |parts| && forall i :: 0 <= i < |parts| ==> LaidRight(parts[i], placed[i], payload, sha)
    requires InRange(placed)
    ensures VerifySegments(file, base, placed, sha) == Fine
    decreases |parts|
  {
    hide LaidRight;
    if placed != [] {
      assert LaidRight(parts[0], placed[0], payload, sha);
      LaidSegmentVerifies(file, base, parts[0], placed[0], payload, sha);
      forall i | 0 <= i < |parts| - 1
        ensures LaidRight(parts[1..][i], placed[1..][i], payload, sha)
      {
        assert LaidRight(parts[i + 1], placed[i + 1], payload, sha);
      }
      LaidSegmentsVerify(file, base, parts[1..], placed[1..], payload, sha);
    }
  }

  lemma LaidSegmentVerifies(file: bytes, base: nat, part: Part, seg: Segment, payload: bytes, sha: bytes -> bytes)
    requires |file| == base + |payload| && file[base..] == payload
    requires LaidRight(part, seg, payload, sha)
    ensures VerifySegment(file, base, seg, sha) == Fine
  {
    SliceOfSlice(file, base, |file|, seg.offset, seg.End());
    assert file[base..|file|] == file[base..];
    assert ReadAt(file, base + seg.offset, seg.nbytes) == part.1;
  }

  /** What `write_segments` knew when it handed its table to `_write`. */
  predicate SegmentsWrittenFrom(parts: seq<Part>, placed: seq<Segment>, payload: bytes, codec: Codec, file: bytes, header: bytes, offset: nat) {
    && parts != [] && SegmentsWritten(parts, codec) == Success(file)
    && PlaceFrom(parts, [], [], codec.sha) == Success((placed, payload))
    && HeaderFits(TemplateOf(placed, payload, codec))
    && SealedHeader(TemplateOf(placed, payload, codec), codec) == Success((header, offset))
    && ReadsBack(codec, header, StoredBlob(placed, payload, codec, offset), IntegrityAt(TemplateOf(placed, payload, codec), offset))
  }

  function TemplateOf(placed: seq<Segment>, payload: bytes, codec: Codec): Template {
    codec.render(SegmentedBlob(placed, payload, codec))
  }

  function StoredBlob(placed: seq<Segment>, payload: bytes, codec: Codec, offset: nat): Blob {
    SegmentedBlob(placed, payload, codec).(offset := Number(offset))
  }

  lemma SegmentsGoThroughWrite(parts: seq<Part>, placed: seq<Segment>, payload: bytes, codec: Codec, file: bytes, header: bytes, offset: nat)
    requires SegmentsWrittenFrom(parts, placed, payload, codec, file, header, offset)
    ensures WrittenFrom(TemplateOf(placed, payload, codec), payload, SEGMENTED_VERSION, codec, file, header, offset, StoredBlob(placed, payload, codec, offset))
    ensures Acceptable(placed, PayloadFrame(|payload|)) && Laid(parts, placed, payload, codec.sha) && InRange(placed)
  {
    hide Acceptable, SealedHeader, ReadsBack, InRange, Laid, HeaderFits, IntegrityAt, Written;
    assert PlaceFrom(parts, [], [], codec.sha).Extract() == (placed, payload);
    PlacementAlwaysValidates(parts, placed, payload, codec.sha);
    AcceptedInRange(placed, PayloadFrame(|payload|));
  }

  /** A segmented artifact passes `verify`, every digest of its table included, exactly when its own digest key comes first. */
  lemma SegmentsWrittenVerify(parts: seq<Part>, placed: seq<Segment>, payload: bytes, codec: Codec, file: bytes, header: bytes, offset: nat)
    requires forall x :: HexDigest(codec.sha, x)
    requires forall z, v :: DigestPlaceholder(header) == Success((z, v)) ==> codec.sha(z) != ZERO_DIGEST
    requires SegmentsWrittenFrom(parts, placed, payload, codec, file, header, offset)
    ensures VerifyFile(file, codec) == Fine <==> KeyComesFirst(TemplateOf(placed, payload, codec), offset)
    ensures VerifyFile(file, codec) != Raised
  {
    hide Inspect, Drain, SealedHeader, Written, KeyComesFirst, FirstKeyIsClear, ReadHeader, SegmentsWrittenFrom, WrittenFrom, LaidRight, Acceptable, VerifySegments, InRange, TemplateOf;
    var blob := StoredBlob(placed, payload, codec, offset);
    var t := TemplateOf(placed, payload, codec);
    SegmentsGoThroughWrite(parts, placed, payload, codec, file, header, offset);
    WrittenInspects(t, payload, SEGMENTED_VERSION, codec, file, header, offset, blob);
    if KeyComesFirst(t, offset) {
      WrittenLoads(t, payload, SEGMENTED_VERSION, codec, file, header, offset, blob);
      WrittenExtracts(t, payload, SEGMENTED_VERSION, codec, file, header, offset, blob, VERIFY_CHUNK);
      WrittenReads(t, payload, SEGMENTED_VERSION, codec, file, header, offset, blob);
      LaidSegmentsVerify(file, offset, parts, placed, payload, codec.sha);
    }
  }

  lemma {:induction false} FirstNamedIs(segments: seq<Segment>, i: nat, buffer: bytes)
    requires i < |segments|
    requires forall j :: 0 <= j < i ==> segments[j].name != segments[i].name
    ensures FirstNamed(segments, segments[i].name, buffer) == FirstNamed([segments[i]], segments[i].name, buffer)
  {
    if i > 0 {
      assert segments[1..][i - 1] == segments[i];
      FirstNamedIs(segments[1..], i - 1, buffer);
    }
  }

  /** Round trip: every tensor segment comes back, byte for byte, under its own name. */
  lemma SegmentRoundTrip(parts: seq<Part>, placed: seq<Segment>, payload: bytes, codec: Codec, file: bytes, header: bytes, offset: nat, i: nat)
    requires forall x :: HexDigest(codec.sha, x)
    requires SegmentsWrittenFrom(parts, placed, payload, codec, file, header, offset) && i < |parts|
    requires codec.loads(header).Loaded? && codec.loads(header).header.blob == StoredBlob(placed, payload, codec, offset)
    ensures Open(file, codec).Success?
    ensures SegmentOf(Open(file, codec).value, parts[i].0.name)
         == if IsCanonical(parts[i].0.dtype) then Success(parts[i].1) else Failure(OpaqueOnly)
  {
    hide Open, SealedHeader, SegmentsWrittenFrom, Written, TemplateOf, Acceptable, WrittenFrom, Drain, Extracted, Product;
    var blob := StoredBlob(placed, payload, codec, offset);
    SegmentsGoThroughWrite(parts, placed, payload, codec, file, header, offset);
    WrittenExtracts(TemplateOf(placed, payload, codec), payload, SEGMENTED_VERSION, codec, file, header, offset, blob, 1);
    assert LaidRight(parts[i], placed[i], payload, codec.sha);
    AcceptedRow(placed, PayloadFrame(|payload|), i);
    if IsCanonical(placed[i].dtype) {
      PlainShapeReshapes(|parts[i].1|, ItemSize(placed[i].dtype), placed[i].shape);
    }
    FirstNamedIs(placed, i, payload);
    assert PySlice(payload, placed[i].offset, placed[i].End()) == parts[i].1;
  }

  lemma AcceptedRow(segments: seq<Segment>, frame: Segments.Frame, i: nat)
    requires Acceptable(segments, frame) && i < |segments|
    ensures forall d :: 0 <= d < |segments[i].shape| ==> segments[i].shape[d] >= 0
    ensures IsCanonical(segments[i].dtype) ==> segments[i].nbytes == ItemSize(segments[i].dtype) * Product(segments[i].shape)
    ensures forall j :: 0 <= j < i ==> segments[j].name != segments[i].name
  {
    assert RowSound(segments, i, frame);
  }

  /**
   * For anything but a segmented artifact the full check is the header check together with an
   * extraction that succeeds, so checking the header and then extracting reads the payload once
   * and loses nothing.
   */
  lemma VerifyIsHeaderAndExtraction(file: bytes, codec: Codec, chunk: nat)
    requires chunk > 0
    requires ReadHeader(file, codec).Success? ==> ReadHeader(file, codec).value.0.blob.encoding != Some("segmented")
    ensures VerifyFile(file, codec) == Fine <==> VerifyHeader(file, codec) == Fine && Extracted(file, chunk, codec).Success?
  {
    hide ReadHeader, DigestPlaceholder;
  }

  /** The parser itself raises on this header. */
  predicate ParserRaisesOn(file: bytes, codec: Codec) {
    ReadHeader(file, codec) == Failure(Raises)
  }

  /** The numbers of an authentic header make seeking or reading raise: an offset no file position can hold, a negative size. */
  predicate NumbersRaise(file: bytes, offset: int, nbytes: int) {
    && offset % ALIGNMENT == 0 && offset + nbytes <= |file|
    && (offset < -0x8000_0000_0000_0000 || offset >= 0x8000_0000_0000_0000
        || (offset >= 0 && (nbytes < -1 || (nbytes == -1 && offset < |file|))))
  }

  /** The payload is the declared one and the table of segments cannot be iterated. */
  predicate TableRaises(file: bytes, blob: Blob, codec: Codec)
    requires blob.offset.Number? && blob.nbytes.Number?
  {
    var offset, nbytes := blob.offset.value, blob.nbytes.value;
    && offset % ALIGNMENT == 0 && 0 <= offset < 0x8000_0000_0000_0000 && 0 <= nbytes && offset + nbytes <= |file|
    && Some(codec.sha(file[offset..offset + nbytes])) == blob.sha256
    && blob.encoding == Some("segmented") && blob.segments.NotIterable?
  }

  /**
   * When `verify` raises although it promises never to: the parser raises, or an authentic header has an
   * offset or a size that is no number, numbers that seeking or reading refuses, or a table of segments
   * that cannot be iterated behind a payload that is the declared one. Never otherwise.
   */
  lemma VerifyRaisesExactly(file: bytes, codec: Codec)
    ensures VerifyFile(file, codec) == Raised <==>
      || ParserRaisesOn(file, codec)
      || (Authentic(file, codec).Success?
          && var blob := Authentic(file, codec).value;
          if blob.offset.Number? && blob.nbytes.Number?
          then NumbersRaise(file, blob.offset.value, blob.nbytes.value) || TableRaises(file, blob, codec)
          else true)
  {
    hide ReadHeader, DigestPlaceholder, Acceptable, ReadAt;
    AuthenticFields(file, codec);
    if Inspect(file, codec).Success? {
      var blob := Inspect(file, codec).value;
      var offset, nbytes := blob.offset.value, blob.nbytes.value;
      if offset >= 0 && blob.segments.Rows? {
        AcceptedInRange(blob.segments.rows, PayloadFrame(nbytes));
        if InRange(blob.segments.rows) {
          SegmentsNeverRaise(file, offset, blob.segments.rows, codec.sha);
        }
      }
      if nbytes == 0 && 0 <= offset <= |file| {
        assert file[offset..offset] == [];
      }
    }
  }

  /** `verify_header` raises for the parser and for an offset or a size that is no number, and for nothing else. */
  lemma VerifyHeaderRaisesExactly(file: bytes, codec: Codec)
    ensures VerifyHeader(file, codec) == Raised <==>
      || ParserRaisesOn(file, codec)
      || (Authentic(file, codec).Success? && !(Authentic(file, codec).value.offset.Number? && Authentic(file, codec).value.nbytes.Number?))
  {
    hide ReadHeader, DigestPlaceholder, ReadAt;
    AuthenticFields(file, codec);
  }

  lemma AuthenticFields(file: bytes, codec: Codec)
    ensures Authentic(file, codec) == Failure(Raises) <==> ParserRaisesOn(file, codec)
    ensures Authentic(file, codec).Success? ==> !Authentic(file, codec).value.offset.Absent? && !Authentic(file, codec).value.nbytes.Absent?
  {
    hide ReadHeader, ReadAt, Find, Overwrite;
  }

  lemma {:induction false} SegmentsNeverRaise(file: bytes, base: nat, segments: seq<Segment>, sha: bytes -> bytes)
    requires InRange(segments)
    ensures VerifySegments(file, base, segments, sha) != Raised
  {
    if segments != [] {
      SegmentsNeverRaise(file, base, segments[1..], sha);
    }
  }
}
