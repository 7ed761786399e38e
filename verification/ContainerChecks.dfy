/** What passing a check says about a container's bytes, and what a changed byte does to it. */
module ContainerChecks {
  import opened Wrappers
  import opened Bytes
  import opened Sequences
  import opened Segments
  import opened Container

  /** The file begins with the magic, a supported version and the length of a header it holds whole, and the header loads. */
  predicate HoldsHeader(file: bytes, codec: Codec, header: Header, length: nat) {
    && |file| >= 12 + length && file[0..4] == [0x4B, 0x56, 0x58, 0x31]
    && (U32(file, 4) == 1 || U32(file, 4) == 2) && U32(file, 8) == length
    && codec.loads(file[12..12 + length]) == Loaded(header)
  }

  lemma HeaderReadExactly(file: bytes, codec: Codec, header: Header, length: nat)
    ensures ReadHeader(file, codec) == Success((header, length)) <==> HoldsHeader(file, codec, header, length)
  {
  }

  /** A header text with the sixty-four characters behind its first digest key zeroed. */
  function Unsealed(text: bytes, at: nat): bytes
    requires at + |DIGEST_KEY| <= |text|
  {
    var from := at + |DIGEST_KEY|;
    text[..from] + seq(64, i => 0x30) + if from + 64 <= |text| then text[from + 64..] else []
  }

  predicate FirstKeyAt(text: bytes, at: int) {
    OccursAt(text, DIGEST_KEY, at) && forall k :: 0 <= k < at ==> !OccursAt(text, DIGEST_KEY, k)
  }

  /** The text holds a digest key, and hashes to this digest when it is unsealed. */
  ghost predicate SealedWith(text: bytes, digest: bytes, sha: bytes -> bytes) {
    exists at :: FirstKeyAt(text, at) && sha(Unsealed(text, at)) == digest
  }

  /** The fields every check demands, with the header's own digest. */
  ghost predicate Authenticated(file: bytes, codec: Codec, header: Header, length: nat) {
    && HoldsHeader(file, codec, header, length)
    && header.blob.encoding.Some? && !header.blob.offset.Absent? && !header.blob.nbytes.Absent? && header.blob.sha256.Some?
    && header.integrity.Some? && SealedWith(file[12..12 + length], header.integrity.value, codec.sha)
  }

  lemma AuthenticExactly(file: bytes, codec: Codec, header: Header, length: nat)
    requires HoldsHeader(file, codec, header, length)
    ensures Authentic(file, codec) == Success(header.blob) <==> Authenticated(file, codec, header, length)
    ensures Authentic(file, codec).Success? ==> Authentic(file, codec).value == header.blob
  {
    hide HoldsHeader, ReadHeader, DigestPlaceholder;
    HeaderReadExactly(file, codec, header, length);
    HeaderText(file, codec, header, length);
    PlaceholderExactly(file[12..12 + length], codec.sha);
  }

  lemma HeaderText(file: bytes, codec: Codec, header: Header, length: nat)
    requires HoldsHeader(file, codec, header, length)
    ensures 12 + length <= |file|
    ensures var raw := ReadAt(file, 0, PREAMBLE + length); raw[Min(PREAMBLE, |raw|)..] == file[12..12 + length]
  {
    assert ReadAt(file, 0, PREAMBLE + length) == file[0..PREAMBLE + length];
    assert file[0..12 + length][12..] == file[12..12 + length];
  }

  lemma PlaceholderExactly(text: bytes, sha: bytes -> bytes)
    ensures forall digest :: SealedWith(text, digest, sha) <==>
      DigestPlaceholder(text).Success? && sha(DigestPlaceholder(text).value.0) == digest
  {
    var found := Find(text, DIGEST_KEY, 0);
    forall digest
      ensures SealedWith(text, digest, sha) <==>
        DigestPlaceholder(text).Success? && sha(DigestPlaceholder(text).value.0) == digest
    {
      if found.Some? {
        assert FirstKeyAt(text, found.value);
        UnsealedIsOverwritten(text, found.value);
        assert forall at :: FirstKeyAt(text, at) ==> at == found.value;
      }
    }
  }

  lemma UnsealedIsOverwritten(text: bytes, at: nat)
    requires at + |DIGEST_KEY| <= |text|
    ensures Unsealed(text, at) == Overwrite(text, at + |DIGEST_KEY|, ZERO_DIGEST)
  {
    assert seq(64, i => 0x30) == ZERO_DIGEST;
    assert text[|text|..] == [];
  }

  /** The declared payload lies in the file, on a block boundary. */
  predicate InPlace(blob: Blob, size: nat) {
    && blob.offset.Number? && blob.nbytes.Number?
    && 0 <= blob.offset.value < TWO_TO_THE_63 && blob.offset.value % 64 == 0
    && 0 <= blob.nbytes.value && blob.offset.value + blob.nbytes.value <= size
  }

  /** The bytes of the file the header declares to be the payload. */
  function DeclaredPayload(file: bytes, blob: Blob): bytes
    requires InPlace(blob, |file|)
  {
    file[blob.offset.value..blob.offset.value + blob.nbytes.value]
  }

  /** The rows lie in the payload without overlap, and every digest recorded of them is right. */
  predicate TableRight(file: bytes, blob: Blob, codec: Codec)
    requires InPlace(blob, |file|)
  {
    && blob.segments.Rows? && Acceptable(blob.segments.rows, PayloadFrame(blob.nbytes.value))
    && blob.representation in {None, Some([]), Some(codec.tableDigest(blob.segments.rows))}
    && RowsRight(file, blob.offset.value, blob.segments.rows, codec.sha)
  }

  predicate RowsRight(file: bytes, base: nat, rows: seq<Segment>, sha: bytes -> bytes) {
    forall i :: 0 <= i < |rows| ==> RowRight(file, base, rows[i], sha)
  }

  predicate RowRight(file: bytes, base: nat, row: Segment, sha: bytes -> bytes) {
    && 0 <= row.offset && 0 <= row.nbytes
    && (row.nbytes == 0 || base + row.offset + row.nbytes <= |file|)
    && (row.sha256 == [] || row.sha256 == sha(if row.nbytes == 0 then [] else file[base + row.offset..base + row.offset + row.nbytes]))
  }

  lemma {:induction false} RowsVerifyExactly(file: bytes, base: nat, rows: seq<Segment>, sha: bytes -> bytes)
    requires InRange(rows)
    ensures VerifySegments(file, base, rows, sha) == Fine <==> RowsRight(file, base, rows, sha)
  {
    hide VerifySegment, RowRight;
    if rows != [] {
      RowVerifiesExactly(file, base, rows[0], sha);
      RowsVerifyExactly(file, base, rows[1..], sha);
      assert rows == [rows[0]] + rows[1..];
    }
  }

  lemma RowVerifiesExactly(file: bytes, base: nat, row: Segment, sha: bytes -> bytes)
    requires row.offset >= 0 && row.nbytes >= 0
    ensures VerifySegment(file, base, row, sha) == Fine <==> RowRight(file, base, row, sha)
  {
  }

  /**
   * A file verifies if and only if its header carries its own digest, the declared payload lies in the file on a block
   * boundary and hashes to the declared digest, and, for a segmented one, the table is sound and each digest it records
   * is that of its bytes.
   */
  lemma VerifiesExactly(file: bytes, codec: Codec, header: Header, length: nat)
    requires HoldsHeader(file, codec, header, length)
    ensures VerifyFile(file, codec) == Fine <==>
      && Authenticated(file, codec, header, length) && InPlace(header.blob, |file|)
      && Some(codec.sha(DeclaredPayload(file, header.blob))) == header.blob.sha256
      && (header.blob.encoding == Some("segmented") ==> TableRight(file, header.blob, codec))
  {
    hide HoldsHeader, ReadHeader, Authentic, Authenticated, TableRight, VerifyTable;
    AuthenticExactly(file, codec, header, length);
    var blob := header.blob;
    if Authentic(file, codec).Success? {
      FieldsThere(file, codec, header, length);
      if InPlace(blob, |file|) {
        DrainsDeclared(file, blob, VERIFY_CHUNK);
        TableVerifiesExactly(file, blob, codec);
      }
    }
  }

  lemma FieldsThere(file: bytes, codec: Codec, header: Header, length: nat)
    requires Authenticated(file, codec, header, length)
    ensures header.blob.encoding.Some? && !header.blob.offset.Absent? && !header.blob.nbytes.Absent? && header.blob.sha256.Some?
  {
  }

  lemma DrainsDeclared(file: bytes, blob: Blob, chunk: int)
    requires InPlace(blob, |file|) && chunk > 0
    ensures Drain(file, blob.offset.value, blob.nbytes.value, chunk) == Complete(DeclaredPayload(file, blob))
  {
  }

  lemma TableVerifiesExactly(file: bytes, blob: Blob, codec: Codec)
    requires InPlace(blob, |file|)
    ensures VerifyTable(file, blob, codec) == Fine <==> TableRight(file, blob, codec)
  {
    hide VerifySegments, RowsRight, Acceptable;
    if blob.segments.Rows? && Acceptable(blob.segments.rows, PayloadFrame(blob.nbytes.value)) {
      AcceptedInRange(blob.segments.rows, PayloadFrame(blob.nbytes.value));
      RowsVerifyExactly(file, blob.offset.value, blob.segments.rows, codec.sha);
    }
  }

  /** An offset a file position can hold, and a size there are bytes for. */
  predicate IsThere(file: bytes, blob: Blob) {
    && blob.offset.Number? && blob.nbytes.Number? && 0 <= blob.offset.value < TWO_TO_THE_63
    && (blob.nbytes.value == 0 || (blob.nbytes.value > 0 && blob.offset.value + blob.nbytes.value <= |file|))
  }

  function BytesThere(file: bytes, blob: Blob): bytes
    requires IsThere(file, blob)
  {
    if blob.nbytes.value == 0 then [] else file[blob.offset.value..blob.offset.value + blob.nbytes.value]
  }

  /** Chunks that read something get there; one of -1 reads to the end of the file, and 0 gets nowhere. */
  predicate GetsThere(file: bytes, blob: Blob, chunk: int)
    requires IsThere(file, blob)
  {
    blob.nbytes.value == 0 || chunk > 0 || (chunk == -1 && blob.offset.value + blob.nbytes.value == |file|)
  }

  /**
   * What extraction publishes: exactly the declared bytes of the file, and only if they hash to the declared digest,
   * whatever the encoding; and when it says that they do not, or that there are too few.
   */
  lemma ExtractsExactly(file: bytes, codec: Codec, header: Header, length: nat, chunk: int, payload: bytes)
    requires HoldsHeader(file, codec, header, length)
    ensures
      var blob := header.blob;
      var there := IsThere(file, blob) && GetsThere(file, blob, chunk);
      && (Extracted(file, chunk, codec) == Success(payload) <==>
            there && payload == BytesThere(file, blob) && blob.sha256 == Some(codec.sha(payload)))
      && (Extracted(file, chunk, codec) == Failure(PayloadMismatch) <==>
            there && blob.sha256.Some? && blob.sha256.value != codec.sha(BytesThere(file, blob)))
      && (Extracted(file, chunk, codec) == Failure(MissingField) <==>
            blob.offset.Absent? || blob.nbytes.Absent? || (there && blob.sha256.None?))
      && (Extracted(file, chunk, codec) == Failure(Raises) <==>
            !blob.offset.Absent? && !blob.nbytes.Absent? && !(blob.offset.Number? && blob.nbytes.Number?))
      && (Extracted(file, chunk, codec) == Failure(Unreadable) <==>
            blob.offset.Number? && blob.nbytes.Number? && !(0 <= blob.offset.value < TWO_TO_THE_63))
      && (Extracted(file, chunk, codec) == Failure(PayloadTruncated) && chunk > 0 <==>
            && chunk > 0 && blob.offset.Number? && blob.nbytes.Number? && 0 <= blob.offset.value < TWO_TO_THE_63
            && (blob.nbytes.value > 0 || blob.nbytes.value == -1)
            && blob.offset.value + Max(blob.nbytes.value, 0) >= |file| && !there)
  {
    hide HoldsHeader, ReadHeader;
    HeaderReadExactly(file, codec, header, length);
  }

  /** Nothing is verified or extracted without such a header. */
  lemma NoHeaderNothing(file: bytes, codec: Codec, chunk: int)
    ensures ReadHeader(file, codec).Failure? ==>
      VerifyFile(file, codec) != Fine && VerifyHeader(file, codec) != Fine && Extracted(file, chunk, codec).Failure?
    ensures ReadHeader(file, codec).Failure? <==> forall header, length: nat :: !HoldsHeader(file, codec, header, length)
  {
    hide HoldsHeader, ReadHeader;
    forall header, length: nat
      ensures ReadHeader(file, codec) == Success((header, length)) <==> HoldsHeader(file, codec, header, length)
    {
      HeaderReadExactly(file, codec, header, length);
    }
    if ReadHeader(file, codec).Success? {
      var (header, length) := ReadHeader(file, codec).value;
      assert HoldsHeader(file, codec, header, length);
    }
  }

  /**
   * Two files with the same header, and payloads that differ anywhere but do not collide: at most one of them verifies,
   * or is extracted, segmented or not.
   */
  lemma ChangedPayloadIsRefused(file: bytes, changed: bytes, codec: Codec, header: Header, length: nat, chunk: int)
    requires HoldsHeader(file, codec, header, length) && HoldsHeader(changed, codec, header, length)
    requires InPlace(header.blob, |file|) && InPlace(header.blob, |changed|)
    requires codec.sha(DeclaredPayload(file, header.blob)) != codec.sha(DeclaredPayload(changed, header.blob))
    ensures VerifyFile(file, codec) == Fine ==> VerifyFile(changed, codec) != Fine
    ensures Extracted(file, chunk, codec).Success? ==> Extracted(changed, chunk, codec).Failure?
  {
    hide HoldsHeader, VerifyFile, Extracted, Authenticated, TableRight;
    VerifiesExactly(file, codec, header, length);
    VerifiesExactly(changed, codec, header, length);
    assert BytesThere(file, header.blob) == DeclaredPayload(file, header.blob);
    assert BytesThere(changed, header.blob) == DeclaredPayload(changed, header.blob);
    if Extracted(file, chunk, codec).Success? && Extracted(changed, chunk, codec).Success? {
      ExtractsExactly(file, codec, header, length, chunk, Extracted(file, chunk, codec).value);
      ExtractsExactly(changed, codec, header, length, chunk, Extracted(changed, chunk, codec).value);
    }
  }

  /** The header check: all of it but the payload, and a segmented file is never passed by it. */
  lemma HeaderVerifiesExactly(file: bytes, codec: Codec, header: Header, length: nat)
    requires HoldsHeader(file, codec, header, length)
    ensures
      var blob := header.blob;
      var sound := Authenticated(file, codec, header, length) && blob.offset.Number? && blob.nbytes.Number?
        && blob.offset.value % 64 == 0 && blob.offset.value + blob.nbytes.value <= |file|;
      && (VerifyHeader(file, codec) == Fine <==> sound && blob.encoding != Some("segmented"))
      && (VerifyHeader(file, codec) == Bad(NeedsVerify) <==> sound && blob.encoding == Some("segmented"))
  {
    hide HoldsHeader, ReadHeader, Authentic, Authenticated;
    AuthenticExactly(file, codec, header, length);
    if Authentic(file, codec).Success? {
      FieldsThere(file, codec, header, length);
    }
    NotNeedsVerify(file, codec);
  }

  lemma NotNeedsVerify(file: bytes, codec: Codec)
    ensures Authentic(file, codec) != Failure(NeedsVerify)
  {
  }

  // Reading one segment

  /** The payload is mapped when it lies in the file, and is then exactly its declared bytes. */
  lemma OpensExactly(file: bytes, codec: Codec, header: Header, length: nat, artifact: Artifact)
    requires HoldsHeader(file, codec, header, length)
    ensures
      var blob := header.blob;
      Open(file, codec) == Success(artifact) <==>
      && blob.offset.Number? && blob.nbytes.Number? && 0 <= blob.offset.value && 0 <= blob.nbytes.value
      && blob.offset.value + blob.nbytes.value <= |file|
      && artifact.blob == blob && artifact.base == blob.offset.value
      && artifact.buffer == file[blob.offset.value..blob.offset.value + blob.nbytes.value]
  {
    hide HoldsHeader, ReadHeader;
    HeaderReadExactly(file, codec, header, length);
    var blob := header.blob;
    if blob.offset.Number? && blob.nbytes.Number? && 0 <= blob.offset.value && 0 <= blob.nbytes.value
       && blob.offset.value + blob.nbytes.value <= |file| {
      var from, n := blob.offset.value, blob.nbytes.value;
      assert file[from..][..n] == file[from..from + n];
      assert Open(file, codec) == Success(Artifact(blob, from, file[from..from + n]));
    }
  }

  /** Where an index of a slice comes to lie in n bytes: a negative one counts from their end. */
  function Clamped(k: int, n: nat): (c: nat)
    ensures c <= n
  {
    if k + n < 0 then 0 else if k < 0 then k + n else if k <= n then k else n
  }

  predicate IsSlice(s: bytes, start: int, stop: int, raw: bytes) {
    var lo, hi := Clamped(start, |s|), Clamped(stop, |s|);
    if lo < hi then raw == s[lo..hi] else raw == []
  }

  /** The shape with d for the dimension that is left open. */
  function Filled(shape: seq<int>, d: nat): seq<int> {
    seq(|shape|, i requires 0 <= i < |shape| => if shape[i] == -1 then d else shape[i])
  }

  ghost predicate HoldsShape(nbytes: nat, size: nat, shape: seq<int>) {
    && (forall i :: 0 <= i < |shape| ==> shape[i] >= -1)
    && (forall i, j :: 0 <= i < j < |shape| ==> !(shape[i] == -1 && shape[j] == -1))
    && (-1 in shape ==> 0 !in shape)
    && exists d: nat :: nbytes == size * Product(Filled(shape, d))
  }

  lemma {:induction false} GivenDimensions(shape: seq<int>)
    requires forall i :: 0 <= i < |shape| ==> shape[i] >= -1
    ensures Unknowns(shape) == 0 <==> -1 !in shape
    ensures Known(shape) > 0 <==> 0 !in shape
  {
    if shape != [] {
      GivenDimensions(shape[1..]);
      assert shape == [shape[0]] + shape[1..];
      assert Known(shape) > 0 <==> shape[0] != 0 && Known(shape[1..]) > 0;
    }
  }

  lemma {:induction false} OpenDimensions(shape: seq<int>)
    requires forall i :: 0 <= i < |shape| ==> shape[i] >= -1
    ensures Unknowns(shape) <= 1 <==> forall i, j :: 0 <= i < j < |shape| ==> !(shape[i] == -1 && shape[j] == -1)
  {
    if shape != [] {
      var rest := shape[1..];
      OpenDimensions(rest);
      GivenDimensions(rest);
      assert forall i :: 0 <= i < |rest| ==> rest[i] == shape[i + 1];
      if Unknowns(shape) > 1 {
        if shape[0] == -1 {
          var j :| 0 <= j < |rest| && rest[j] == -1;
          assert shape[0] == -1 && shape[j + 1] == -1;
        } else {
          var i, j :| 0 <= i < j < |rest| && rest[i] == -1 && rest[j] == -1;
          assert shape[i + 1] == -1 && shape[j + 1] == -1;
        }
      } else {
        forall i, j | 0 <= i < j < |shape|
          ensures !(shape[i] == -1 && shape[j] == -1)
        {
          assert shape[j] == rest[j - 1] && (i > 0 ==> shape[i] == rest[i - 1]);
        }
      }
    }
  }

  lemma FilledParts(shape: seq<int>, d: nat)
    requires shape != []
    ensures Filled(shape, d) != [] && Filled(shape, d)[0] == if shape[0] == -1 then d else shape[0]
    ensures Filled(shape, d)[1..] == Filled(shape[1..], d)
  {
  }

  lemma Reorder(a: int, b: int, c: int)
    ensures a * (b * c) == (a * b) * c && a * b == b * a
  {
  }

  lemma {:induction false} FilledProduct(shape: seq<int>, d: nat)
    requires (forall i :: 0 <= i < |shape| ==> shape[i] >= -1) && Unknowns(shape) <= 1
    ensures Product(Filled(shape, d)) == if Unknowns(shape) == 0 then Known(shape) else Known(shape) * d
  {
    hide Filled;
    if shape == [] {
      assert Filled(shape, d) == [] by { NothingFilled(d); }
    } else {
      FilledProduct(shape[1..], d);
      FilledParts(shape, d);
      Reorder(shape[0], Known(shape[1..]), d);
      Reorder(d, Known(shape[1..]), 1);
    }
  }

  lemma NothingFilled(d: nat)
    ensures Filled([], d) == []
  {
  }

  /** A shape fits when one number in place of its open dimension makes up the bytes. */
  lemma ReshapesExactly(nbytes: nat, size: nat, shape: seq<int>)
    requires size > 0
    ensures Reshapes(nbytes, size, shape) <==> HoldsShape(nbytes, size, shape)
  {
    hide Unknowns, Known, Filled, Product;
    if forall i :: 0 <= i < |shape| ==> shape[i] >= -1 {
      OpenDimensions(shape);
      GivenDimensions(shape);
      if Unknowns(shape) <= 1 {
        var known := Known(shape);
        if Reshapes(nbytes, size, shape) {
          var d := if Unknowns(shape) == 0 then 0 else nbytes / size / known;
          FilledProduct(shape, d);
          assert nbytes == size * (nbytes / size);
        } else if HoldsShape(nbytes, size, shape) {
          var d: nat :| nbytes == size * Product(Filled(shape, d));
          FilledProduct(shape, d);
          Divides(size, Product(Filled(shape, d)));
          if Unknowns(shape) == 1 {
            Divides(known, d);
          }
        }
      }
    }
  }

  lemma Divides(a: nat, b: nat)
    requires a > 0
    ensures (a * b) % a == 0 && a * b / a == b
  {
    MultipleDivides(b, a);
    assert a * b == b * a;
  }

  predicate FirstOfName(rows: seq<Segment>, name: string, i: nat) {
    i < |rows| && rows[i].name == name && forall j :: 0 <= j < i ==> rows[j].name != name
  }

  function BytesEach(dtype: string): nat {
    if dtype == "f32" then 4 else if dtype == "f16" || dtype == "bf16" then 2 else 0
  }

  /** What the first row of the name says: its slice of the payload, if its type is one of the three and its shape holds it. */
  ghost predicate RowGives(row: Segment, buffer: bytes, r: Result<bytes, Reason>) {
    if BytesEach(row.dtype) == 0 then r == Failure(OpaqueOnly)
    else exists raw ::
      && IsSlice(buffer, row.offset, row.offset + row.nbytes, raw)
      && r == if HoldsShape(|raw|, BytesEach(row.dtype), row.shape) then Success(raw) else Failure(BadShape)
  }

  lemma {:induction false} FirstNamedExactly(rows: seq<Segment>, name: string, buffer: bytes)
    ensures FirstNamed(rows, name, buffer) == Failure(NoSuchSegment) <==> forall i :: 0 <= i < |rows| ==> rows[i].name != name
    ensures forall i: nat :: FirstOfName(rows, name, i) ==> RowGives(rows[i], buffer, FirstNamed(rows, name, buffer))
    decreases |rows|
  {
    hide PySlice, IsSlice, Reshapes, HoldsShape;
    if rows != [] {
      var row := rows[0];
      if row.name == name {
        if IsCanonical(row.dtype) {
          var raw := PySlice(buffer, row.offset, row.End());
          assert IsSlice(buffer, row.offset, row.offset + row.nbytes, raw) by { SlicesExactly(buffer, row.offset, row.End()); }
          ReshapesExactly(|raw|, ItemSize(row.dtype), row.shape);
        }
        assert RowGives(row, buffer, FirstNamed(rows, name, buffer));
      } else {
        var rest := rows[1..];
        FirstNamedExactly(rest, name, buffer);
        assert forall i :: 0 <= i < |rest| ==> rest[i] == rows[i + 1];
        forall i: nat | FirstOfName(rows, name, i)
          ensures RowGives(rows[i], buffer, FirstNamed(rows, name, buffer))
        {
          assert FirstOfName(rest, name, i - 1);
        }
        assert forall i :: 0 < i < |rows| ==> rows[i] == rest[i - 1];
      }
    }
  }

  lemma SlicesExactly(s: bytes, start: int, stop: int)
    ensures IsSlice(s, start, stop, PySlice(s, start, stop))
  {
  }

  /** One segment's bytes: those of the first row of the name, wherever its offset and size put them in the payload. */
  lemma SegmentReadsExactly(artifact: Artifact, name: string)
    ensures
      var r, blob := SegmentOf(artifact, name), artifact.blob;
      && (r == Failure(NotSegmented) <==> blob.encoding != Some("segmented"))
      && (r == Failure(Raises) <==> blob.encoding == Some("segmented") && blob.segments.NotIterable?)
      && (r == Failure(MalformedSegment) <==> blob.encoding == Some("segmented") && blob.segments.BadEntry?)
      && (blob.encoding == Some("segmented") && blob.segments.Rows? ==>
            && (r == Failure(NoSuchSegment) <==> forall i :: 0 <= i < |blob.segments.rows| ==> blob.segments.rows[i].name != name)
            && forall i: nat :: FirstOfName(blob.segments.rows, name, i) ==> RowGives(blob.segments.rows[i], artifact.buffer, r))
  {
    hide FirstNamed, RowGives;
    if artifact.blob.segments.Rows? {
      FirstNamedExactly(artifact.blob.segments.rows, name, artifact.buffer);
      NamedRefusals(artifact.blob.segments.rows, name, artifact.buffer);
    }
  }

  lemma {:induction false} NamedRefusals(rows: seq<Segment>, name: string, buffer: bytes)
    ensures var r := FirstNamed(rows, name, buffer);
      r.Failure? ==> r.error == NoSuchSegment || r.error == OpaqueOnly || r.error == BadShape
    decreases |rows|
  {
    hide PySlice, Reshapes;
    if rows != [] && rows[0].name != name {
      NamedRefusals(rows[1..], name, buffer);
    }
  }
}
