/**
 * The KVX container: `kv_rosetta/container.py`.
 *
 * JSON and SHA-256 are parameters. A header is the text around three holes: the payload
 * offset, written in decimal inside `blob`, and the 64 digits of `integrity.header_sha256`.
 * Keys are written sorted, so `blob` comes first.
 */
module Container {
  import opened Wrappers
  import opened Bytes
  import opened Sequences
  import opened Segments

  const MAGIC: bytes := [0x4B, 0x56, 0x58, 0x31]
  const ALIGNMENT := 64
  const PREAMBLE := 12
  const MAX_OFFSET_PASSES := 5
  const CONTAINER_VERSION := 1
  const SEGMENTED_VERSION := 2
  const VERIFY_CHUNK := 0x10_0000

  /** `"header_sha256":"` */
  const DIGEST_KEY: bytes :=
    [0x22, 0x68, 0x65, 0x61, 0x64, 0x65, 0x72, 0x5F, 0x73, 0x68, 0x61, 0x32, 0x35, 0x36, 0x22, 0x3A, 0x22]

  /** Sixty-four characters `0`. */
  const ZERO_DIGEST: bytes := Repeat(0x30, DIGEST_DIGITS)

  function Repeat(b: byte, n: nat): (s: bytes)
    ensures |s| == n
    ensures forall i :: 0 <= i < n ==> s[i] == b
  {
    seq(n, i => b)
  }

  /** A key of `blob` that `int` is applied to: absent, something `int` raises on, or a number. */
  datatype Field = Absent | Mistyped | Number(value: int)

  /** The value of `segments`: something that cannot be iterated, a table with an entry `Segment.from_dict` refuses, or rows. */
  datatype Table = NotIterable | BadEntry | Rows(rows: seq<Segment>)

  /** The `blob` object of a header; None marks an absent key. */
  datatype Blob = Blob(
    encoding: Option<string>,
    offset: Field,
    nbytes: Field,
    sha256: Option<bytes>,
    segments: Table,
    representation: Option<bytes>)

  datatype Header = Header(blob: Blob, integrity: Option<bytes>)

  /** What parsing a header gives; the parser may also raise an error of another kind, on nesting too deep for it. */
  datatype Loaded = NotJson | NotAnObject | NoBlob | ParserRaises | Loaded(header: Header)

  /** The text of a header around its offset and its digest. */
  datatype Template = Template(before: bytes, between: bytes, after: bytes)

  datatype Codec = Codec(
    loads: bytes -> Loaded,
    render: Blob -> Template,
    tableDigest: seq<Segment> -> bytes,
    sha: bytes -> bytes)

  datatype Reason =
    | Raises // not a reason: an exception nothing catches
    | ShortPreamble | BadMagic | UnsupportedVersion | HeaderTruncated | InvalidJson | HeaderNotObject | MissingBlob
    | MissingField | MissingIntegrity | NoDigestField | HeaderMismatch | OffsetMisaligned | FileTooShort
    | Unreadable | PayloadTruncated | PayloadMismatch | MalformedSegment | InvalidTable | RepresentationMismatch
    | SegmentTruncated | SegmentMismatch | NeedsVerify | BadRead
    | NoParts | SizeDisagrees | NotConverged | HeaderTooLong | NotSegmented | OpaqueOnly | BadShape | NoSuchSegment | BlankFormat

  // Offset and header settle each other

  function Align(value: nat): (a: nat)
    ensures a % ALIGNMENT == 0 && value <= a < value + ALIGNMENT
  {
    var remainder := value % ALIGNMENT;
    if remainder == 0 then value else value + (ALIGNMENT - remainder)
  }

  function Decimal(n: nat): (digits: bytes)
    ensures |digits| >= 1
  {
    if n < 10 then [0x30 + n] else Decimal(n / 10) + [0x30 + n % 10]
  }

  function Render(t: Template, offset: nat, digest: bytes): bytes {
    t.before + Decimal(offset) + t.between + DIGEST_KEY + digest + t.after
  }

  /** Where `integrity.header_sha256` begins in a rendered header. */
  function IntegrityAt(t: Template, offset: nat): nat {
    |t.before + Decimal(offset) + t.between|
  }

  /** `_resolve_offset`, starting from a guess. */
  function Settle(t: Template, offset: nat, passes: nat): Result<(bytes, nat), Reason>
    decreases passes
  {
    if passes == 0 then Failure(NotConverged) else
    var header := Render(t, offset, ZERO_DIGEST);
    var settled := Align(PREAMBLE + |header|);
    if settled == offset then Success((header, offset)) else Settle(t, settled, passes - 1)
  }

  method ResolveOffset(t: Template) returns (r: Result<(bytes, nat), Reason>)
    ensures r == Settle(t, 0, MAX_OFFSET_PASSES)
  {
    hide Render, Align, Decimal;
    var offset: nat := 0;
    for pass := 0 to MAX_OFFSET_PASSES
      invariant Settle(t, offset, MAX_OFFSET_PASSES - pass) == Settle(t, 0, MAX_OFFSET_PASSES)
    {
      var header := Render(t, offset, ZERO_DIGEST);
      var settled := Align(PREAMBLE + |header|);
      if settled == offset {
        return Success((header, offset));
      }
      offset := settled;
    }
    return Failure(NotConverged);
  }

  // The digest placeholder

  /** `header[:at] + digest + header[at + 64:]` */
  function Overwrite(header: bytes, at: nat, digest: bytes): bytes
    requires at <= |header|
  {
    header[..at] + digest + header[Min(at + DIGEST_DIGITS, |header|)..]
  }

  /** `_digest_placeholder`: the header with its digest zeroed, and where the digest lies. */
  function DigestPlaceholder(header: bytes): Result<(bytes, nat), Reason> {
    var start := Find(header, DIGEST_KEY, 0);
    if start.None? then Failure(NoDigestField) else
    var valueAt := start.value + |DIGEST_KEY|;
    Success((Overwrite(header, valueAt, ZERO_DIGEST), valueAt))
  }

  // Writing

  function Assemble(header: bytes, version: nat, offset: nat, payload: bytes): bytes
    requires |header| < TWO_TO_THE_32 && version < TWO_TO_THE_32
  {
    WordSizes();
    var padding := offset - (PREAMBLE + |header|);
    MAGIC + ToLe(version, 4) + ToLe(|header|, 4) + header
    + Repeat(0x20, if padding < 0 then 0 else padding) + payload
  }

  /** The header `_write` stores: digested with the placeholder in place. */
  function SealedHeader(t: Template, codec: Codec): Result<(bytes, nat), Reason> {
    var settled :- Settle(t, 0, MAX_OFFSET_PASSES);
    var zeroed :- DigestPlaceholder(settled.0);
    Success((Overwrite(settled.0, zeroed.1, codec.sha(zeroed.0)), settled.1))
  }

  /** `_write`: the bytes of the file that replaces the destination. */
  function Written(t: Template, payload: bytes, version: nat, codec: Codec): Result<bytes, Reason>
    requires version < TWO_TO_THE_32
  {
    var sealed :- SealedHeader(t, codec);
    if |sealed.0| >= TWO_TO_THE_32 then Failure(HeaderTooLong)
    else Success(Assemble(sealed.0, version, sealed.1, payload))
  }

  type Part = (Segment, bytes)

  function Padding(cursor: nat): (pad: nat)
    ensures (cursor + pad) % ALIGNMENT == 0 && pad < ALIGNMENT
  {
    (0 - cursor) % ALIGNMENT
  }

  /** The loop of `write_segments`: rows placed and payload laid so far. */
  function PlaceFrom(parts: seq<Part>, placed: seq<Segment>, payload: bytes, sha: bytes -> bytes)
    : Result<(seq<Segment>, bytes), Reason>
  {
    if parts == [] then Success((placed, payload)) else
    var (seg, data) := parts[0];
    var padded := payload + Repeat(0, Padding(|payload|));
    if seg.nbytes != |data| then Failure(SizeDisagrees) else
    PlaceFrom(parts[1..], placed + [seg.(offset := |padded|, sha256 := sha(data))], padded + data, sha)
  }

  function SegmentedBlob(placed: seq<Segment>, payload: bytes, codec: Codec): Blob {
    Blob(Some("segmented"), Number(0), Number(|payload|), Some(codec.sha(payload)), Rows(placed), Some(codec.tableDigest(placed)))
  }

  function PayloadFrame(nbytes: int): Segments.Frame {
    Segments.Frame(0, nbytes, ALIGNMENT)
  }

  /** `write_segments` */
  function SegmentsWritten(parts: seq<Part>, codec: Codec): Result<bytes, Reason> {
    if parts == [] then Failure(NoParts) else
    var laid :- PlaceFrom(parts, [], [], codec.sha);
    if !Acceptable(laid.0, PayloadFrame(|laid.1|)) then Failure(InvalidTable) else
    Written(codec.render(SegmentedBlob(laid.0, laid.1, codec)), laid.1, SEGMENTED_VERSION, codec)
  }

  /** `b"".join(chunks)` */
  function Join(chunks: seq<bytes>): bytes {
    if chunks == [] then [] else Join(chunks[..|chunks| - 1]) + chunks[|chunks| - 1]
  }

  lemma {:induction false} JoinSnoc(chunks: seq<bytes>, chunk: bytes)
    ensures Join(chunks + [chunk]) == Join(chunks) + chunk
  {
    assert (chunks + [chunk])[..|chunks|] == chunks;
  }

  method WriteSegments(parts: seq<Part>, codec: Codec) returns (r: Result<bytes, Reason>)
    ensures r == SegmentsWritten(parts, codec)
  {
    hide Acceptable, SealedHeader, Written;
    if parts == [] {
      return Failure(NoParts);
    }
    var placed: seq<Segment> := [];
    var chunks: seq<bytes> := [];
    var cursor: nat := 0;
    var i: nat := 0;
    while i < |parts|
      invariant i <= |parts|
      invariant cursor == |Join(chunks)|
      invariant PlaceFrom(parts[i..], placed, Join(chunks), codec.sha) == PlaceFrom(parts, [], [], codec.sha)
    {
      ghost var before := Join(chunks);
      var seg, data := parts[i].0, parts[i].1;
      var pad: nat := Padding(cursor);
      if pad != 0 {
        JoinSnoc(chunks, Repeat(0, pad));
        chunks := chunks + [Repeat(0, pad)];
        cursor := cursor + pad;
      }
      assert Join(chunks) == before + Repeat(0, Padding(|before|));
      if seg.nbytes != |data| {
        return Failure(SizeDisagrees);
      }
      placed := placed + [seg.(offset := cursor, sha256 := codec.sha(data))];
      JoinSnoc(chunks, data);
      chunks := chunks + [data];
      cursor := cursor + |data|;
      assert parts[i..][1..] == parts[i + 1..];
      i := i + 1;
    }
    var payload := Join(chunks);
    assert PlaceFrom(parts, [], [], codec.sha) == Success((placed, payload));
    var verdict := Validate(placed, PayloadFrame(|payload|));
    if !verdict.Accepted? {
      return Failure(InvalidTable);
    }
    var template := codec.render(SegmentedBlob(placed, payload, codec));
    r := Write(template, payload, SEGMENTED_VERSION, codec);
  }

  method Write(t: Template, payload: bytes, version: nat, codec: Codec) returns (r: Result<bytes, Reason>)
    requires version < TWO_TO_THE_32
    ensures r == Written(t, payload, version, codec)
  {
    var settled := ResolveOffset(t);
    if settled.Failure? {
      return Failure(settled.error);
    }
    var (header, offset) := settled.value;
    var placeholder := DigestPlaceholder(header);
    if placeholder.Failure? {
      return Failure(placeholder.error);
    }
    var (zeroed, valueAt) := placeholder.value;
    header := Overwrite(header, valueAt, codec.sha(zeroed));
    if |header| >= TWO_TO_THE_32 {
      return Failure(HeaderTooLong);
    }
    return Success(Assemble(header, version, offset, payload));
  }

  /**
   * `write_opaque_from_file`: the source is hashed in one pass of chunks and copied in another.
   * A chunk of 0 bytes reads as the end of the source, -1 as all of it, and less is refused.
   */
  method WriteOpaqueFromFile(source: bytes, chunk: int, format: string, codec: Codec)
    returns (r: Result<bytes, Reason>)
    ensures r == if !IsBlank(format) && chunk < -1 then Failure(BadRead)
                 else OpaqueWritten(if chunk == 0 then [] else source, format, codec)
  {
    hide SealedHeader;
    if IsBlank(format) {
      return Failure(BlankFormat);
    }
    if chunk < -1 {
      return Failure(BadRead);
    }
    var hashed := CopyInChunks(source, chunk);
    var blob := OpaqueBlob(hashed, codec);
    var sealed := SealedHeader(codec.render(blob), codec);
    if sealed.Failure? {
      return Failure(sealed.error);
    }
    var (header, offset) := sealed.value;
    if |header| >= TWO_TO_THE_32 {
      return Failure(HeaderTooLong);
    }
    var copied := CopyInChunks(source, chunk);
    return Success(Assemble(header, CONTAINER_VERSION, offset, copied));
  }

  /** Blocks of at most `chunk` bytes, each hashed or written as it comes. */
  method CopyInChunks(source: bytes, chunk: int) returns (copied: bytes)
    requires chunk >= -1
    ensures copied == if chunk == 0 then [] else source
  {
    copied := [];
    var position: nat := 0;
    while true
      invariant position <= |source| && copied == source[..position]
      invariant chunk == 0 ==> position == 0
      decreases |source| - position
    {
      var block := ReadAt(source, position, if chunk == -1 then |source| else chunk);
      if block == [] {
        break;
      }
      copied := copied + block;
      position := position + |block|;
    }
  }

  function OpaqueBlob(payload: bytes, codec: Codec): Blob {
    Blob(Some("opaque"), Number(0), Number(|payload|), Some(codec.sha(payload)), Rows([]), None)
  }

  /** `write_opaque` */
  function OpaqueWritten(payload: bytes, format: string, codec: Codec): Result<bytes, Reason> {
    if IsBlank(format) then Failure(BlankFormat)
    else Written(codec.render(OpaqueBlob(payload, codec)), payload, CONTAINER_VERSION, codec)
  }

  // Reading

  /** `_read_header`: the header and its length. */
  function ReadHeader(file: bytes, codec: Codec): Result<(Header, nat), Reason> {
    if |file| < PREAMBLE then Failure(ShortPreamble)
    else if file[..4] != MAGIC then Failure(BadMagic)
    else if U32(file, 4) != CONTAINER_VERSION && U32(file, 4) != SEGMENTED_VERSION then Failure(UnsupportedVersion)
    else
      var length := U32(file, 8);
      if |file| < PREAMBLE + length then Failure(HeaderTruncated) else
      FromParser(codec.loads(file[PREAMBLE..PREAMBLE + length]), length)
  }

  function FromParser(loaded: Loaded, length: nat): Result<(Header, nat), Reason> {
    match loaded
    case NotJson => Failure(InvalidJson)
    case NotAnObject => Failure(HeaderNotObject)
    case NoBlob => Failure(MissingBlob)
    case ParserRaises => Failure(Raises)
    case Loaded(header) => Success((header, length))
  }

  /** A header that loads, names its fields and carries the digest of its own text. */
  function Authentic(file: bytes, codec: Codec): Result<Blob, Reason> {
    var read :- ReadHeader(file, codec);
    var blob := read.0.blob;
    if blob.encoding.None? || blob.offset.Absent? || blob.nbytes.Absent? || blob.sha256.None? then Failure(MissingField)
    else if read.0.integrity.None? then Failure(MissingIntegrity)
    else
      var raw := ReadAt(file, 0, PREAMBLE + read.1);
      var zeroed :- DigestPlaceholder(raw[Min(PREAMBLE, |raw|)..]);
      if codec.sha(zeroed.0) != read.0.integrity.value then Failure(HeaderMismatch) else Success(blob)
  }

  /** What `verify` and `verify_header` both check before looking at the payload. */
  function Inspect(file: bytes, codec: Codec): Result<Blob, Reason> {
    var blob :- Authentic(file, codec);
    if !blob.offset.Number? || !blob.nbytes.Number? then Failure(Raises)
    else if blob.offset.value % ALIGNMENT != 0 then Failure(OffsetMisaligned)
    else if |file| < blob.offset.value + blob.nbytes.value then Failure(FileTooShort)
    else Success(blob)
  }

  datatype Outcome = Fine | Bad(reason: Reason) | Raised

  function Refused(reason: Reason): Outcome {
    if reason == Raises then Raised else Bad(reason)
  }

  /** `verify_header` */
  function VerifyHeader(file: bytes, codec: Codec): Outcome {
    var inspected := Inspect(file, codec);
    if inspected.Failure? then Refused(inspected.error)
    else if inspected.value.encoding == Some("segmented") then Bad(NeedsVerify)
    else Fine
  }

  datatype Drained = Complete(content: bytes) | EarlyEnd | ReadRefused

  /**
   * `seek(offset)`, then reads of at most `chunk` bytes until `nbytes` have come. A buffered
   * reader refuses a length below -1 and reads to the end of the file for -1, so a chunk of -1
   * may bring more than is wanted.
   */
  function Drain(file: bytes, offset: nat, nbytes: int, chunk: int): Drained {
    if nbytes == 0 then Complete([])
    else if Min(chunk, nbytes) < -1 then ReadRefused
    else if Min(chunk, nbytes) == -1 then
      var rest := ReadAt(file, offset, |file|);
      if |rest| == nbytes then Complete(rest)
      else if rest == [] || |rest| < nbytes || (chunk == -1 && |rest| == nbytes + 1) then EarlyEnd
      else ReadRefused
    else if chunk == 0 || offset + nbytes > |file| then EarlyEnd
    else Complete(file[offset..offset + nbytes])
  }

  method DrainLoop(file: bytes, offset: nat, nbytes: int, chunk: int) returns (d: Drained)
    ensures d == Drain(file, offset, nbytes, chunk)
  {
    var content: bytes := [];
    var remaining := nbytes;
    var position := offset;
    while remaining != 0
      invariant position == offset + |content|
      invariant remaining == nbytes - |content|
      invariant content == [] || (position <= |file| && content == file[offset..position])
      invariant content != [] ==> nbytes != 0 && Min(chunk, nbytes) >= -1
      invariant chunk == 0 && nbytes >= 0 ==> content == []
      invariant chunk >= 0 && nbytes >= 0 ==> remaining >= 0
      invariant content != [] && Min(chunk, nbytes) == -1 ==> content == ReadAt(file, offset, |file|) && position == |file|
      decreases |file| + 1 - position
    {
      var size := Min(chunk, remaining);
      if size < -1 {
        return ReadRefused;
      }
      var block := if size == -1 then ReadAt(file, position, |file|) else ReadAt(file, position, size);
      if block == [] {
        return EarlyEnd;
      }
      content := content + block;
      remaining := remaining - |block|;
      position := position + |block|;
    }
    return Complete(content);
  }

  /** An offset that does not fit a file position makes seeking raise; any other negative one is an error of the operating system. */
  predicate FitsPosition(offset: int) {
    -TWO_TO_THE_63 <= offset < TWO_TO_THE_63
  }

  function CannotSeek(offset: int): Outcome {
    if FitsPosition(offset) then Bad(Unreadable) else Raised
  }

  /** `verify` */
  function VerifyFile(file: bytes, codec: Codec): Outcome {
    var inspected := Inspect(file, codec);
    if inspected.Failure? then Refused(inspected.error) else
    var blob := inspected.value;
    if blob.offset.value < 0 || !FitsPosition(blob.offset.value) then CannotSeek(blob.offset.value) else
    match Drain(file, blob.offset.value, blob.nbytes.value, VERIFY_CHUNK)
    case ReadRefused => Raised
    case EarlyEnd => Bad(PayloadTruncated)
    case Complete(payload) =>
      if codec.sha(payload) != blob.sha256.value then Bad(PayloadMismatch)
      else if blob.encoding != Some("segmented") then Fine
      else VerifyTable(file, blob, codec)
  }

  predicate InRange(segments: seq<Segment>) {
    forall i :: 0 <= i < |segments| ==> segments[i].offset >= 0 && segments[i].nbytes >= 0
  }

  lemma AcceptedInRange(segments: seq<Segment>, frame: Segments.Frame)
    ensures Acceptable(segments, frame) ==> InRange(segments)
  {
    if Acceptable(segments, frame) {
      forall i | 0 <= i < |segments|
        ensures segments[i].offset >= 0 && segments[i].nbytes >= 0
      {
        assert RowSound(segments, i, frame);
      }
    }
  }

  /** The last part of `verify`: the table and one digest per segment. */
  function VerifyTable(file: bytes, blob: Blob, codec: Codec): Outcome
    requires blob.offset.Number? && blob.nbytes.Number? && blob.offset.value >= 0
  {
    if blob.segments.NotIterable? then Raised
    else if blob.segments.BadEntry? then Bad(MalformedSegment)
    else if !Acceptable(blob.segments.rows, PayloadFrame(blob.nbytes.value)) then Bad(InvalidTable)
    else if blob.representation.Some? && blob.representation.value != []
            && blob.representation.value != codec.tableDigest(blob.segments.rows) then Bad(RepresentationMismatch)
    else
      AcceptedInRange(blob.segments.rows, PayloadFrame(blob.nbytes.value));
      VerifySegments(file, blob.offset.value, blob.segments.rows, codec.sha)
  }

  function VerifySegment(file: bytes, base: nat, seg: Segment, sha: bytes -> bytes): Outcome
    requires seg.offset >= 0 && seg.nbytes >= 0
  {
    var data := ReadAt(file, base + seg.offset, seg.nbytes);
    if |data| != seg.nbytes then Bad(SegmentTruncated)
    else if seg.sha256 != [] && sha(data) != seg.sha256 then Bad(SegmentMismatch)
    else Fine
  }

  function VerifySegments(file: bytes, base: nat, segments: seq<Segment>, sha: bytes -> bytes): Outcome
    requires InRange(segments)
  {
    if segments == [] then Fine else
    var first := VerifySegment(file, base, segments[0], sha);
    if first != Fine then first else VerifySegments(file, base, segments[1..], sha)
  }

  method Verify(file: bytes, codec: Codec) returns (outcome: Outcome)
    ensures outcome == VerifyFile(file, codec)
  {
    hide Inspect, Acceptable, InRange, VerifySegment;
    var inspected := Inspect(file, codec);
    if inspected.Failure? {
      return Refused(inspected.error);
    }
    var blob := inspected.value;
    InspectedFields(file, codec);
    var offset, nbytes := blob.offset.value, blob.nbytes.value;
    if offset < 0 || !FitsPosition(offset) {
      return CannotSeek(offset);
    }
    var payload := DrainLoop(file, offset, nbytes, VERIFY_CHUNK);
    if payload.ReadRefused? {
      return Raised;
    }
    if payload.EarlyEnd? {
      return Bad(PayloadTruncated);
    }
    if codec.sha(payload.content) != blob.sha256.value {
      return Bad(PayloadMismatch);
    }
    if blob.encoding == Some("segmented") {
      if blob.segments.NotIterable? {
        return Raised;
      }
      if blob.segments.BadEntry? {
        return Bad(MalformedSegment);
      }
      var segs := blob.segments.rows;
      var verdict := Validate(segs, PayloadFrame(nbytes));
      if !verdict.Accepted? {
        return Bad(InvalidTable);
      }
      if blob.representation.Some? && blob.representation.value != [] && blob.representation.value != codec.tableDigest(segs) {
        return Bad(RepresentationMismatch);
      }
      AcceptedInRange(segs, PayloadFrame(nbytes));
      outcome := VerifyEachSegment(file, offset, segs, codec);
      return;
    }
    return Fine;
  }

  method VerifyEachSegment(file: bytes, base: nat, segs: seq<Segment>, codec: Codec) returns (outcome: Outcome)
    requires InRange(segs)
    ensures outcome == VerifySegments(file, base, segs, codec.sha)
  {
    var i: nat := 0;
    while i < |segs|
      invariant i <= |segs|
      invariant VerifySegments(file, base, segs[i..], codec.sha) == VerifySegments(file, base, segs, codec.sha)
    {
      var data := ReadAt(file, base + segs[i].offset, segs[i].nbytes);
      assert segs[i..][0] == segs[i] && segs[i..][1..] == segs[i + 1..];
      if |data| != segs[i].nbytes {
        return Bad(SegmentTruncated);
      }
      if segs[i].sha256 != [] && codec.sha(data) != segs[i].sha256 {
        return Bad(SegmentMismatch);
      }
      i := i + 1;
    }
    return Fine;
  }

  lemma InspectedFields(file: bytes, codec: Codec)
    requires Inspect(file, codec).Success?
    ensures var blob := Inspect(file, codec).value;
      && blob.encoding.Some? && blob.offset.Number? && blob.nbytes.Number? && blob.sha256.Some?
      && blob.offset.value % ALIGNMENT == 0 && blob.offset.value + blob.nbytes.value <= |file|
      && ReadHeader(file, codec).Success? && ReadHeader(file, codec).value.0.blob == blob
  {
  }

  /** What `extract_payload` refuses with an error of its own; anything else it meets is raised as it is. */
  predicate IsContainerError(reason: Reason) {
    reason in {ShortPreamble, BadMagic, UnsupportedVersion, HeaderTruncated, InvalidJson, HeaderNotObject, MissingBlob,
      PayloadTruncated, PayloadMismatch}
  }

  /** `extract_payload`: the staged copy that is published, or the error that leaves none. */
  function Extracted(file: bytes, chunk: int, codec: Codec): Result<bytes, Reason> {
    var read :- ReadHeader(file, codec);
    var blob := read.0.blob;
    if blob.offset.Absent? || blob.nbytes.Absent? then Failure(MissingField)
    else if !blob.offset.Number? || !blob.nbytes.Number? then Failure(Raises)
    else if blob.offset.value < 0 || !FitsPosition(blob.offset.value) then Failure(Unreadable)
    else
      match Drain(file, blob.offset.value, blob.nbytes.value, chunk)
      case ReadRefused => Failure(BadRead)
      case EarlyEnd => Failure(PayloadTruncated)
      case Complete(payload) =>
        if blob.sha256.None? then Failure(MissingField)
        else if codec.sha(payload) != blob.sha256.value then Failure(PayloadMismatch)
        else Success(payload)
  }

  method ExtractPayload(file: bytes, chunk: int, codec: Codec) returns (r: Result<bytes, Reason>)
    ensures r == Extracted(file, chunk, codec)
  {
    var read := ReadHeader(file, codec);
    if read.Failure? {
      return Failure(read.error);
    }
    var blob := read.value.0.blob;
    if blob.offset.Absent? || blob.nbytes.Absent? {
      return Failure(MissingField);
    }
    if !blob.offset.Number? || !blob.nbytes.Number? {
      return Failure(Raises);
    }
    if blob.offset.value < 0 || !FitsPosition(blob.offset.value) {
      return Failure(Unreadable);
    }
    var drained := DrainLoop(file, blob.offset.value, blob.nbytes.value, chunk);
    if drained.ReadRefused? {
      return Failure(BadRead);
    }
    if drained.EarlyEnd? {
      return Failure(PayloadTruncated);
    }
    if blob.sha256.None? {
      return Failure(MissingField);
    }
    if codec.sha(drained.content) != blob.sha256.value {
      return Failure(PayloadMismatch);
    }
    return Success(drained.content);
  }

  datatype Artifact = Artifact(blob: Blob, base: nat, buffer: bytes)

  /** `read`: the mapped payload. */
  function Open(file: bytes, codec: Codec): Result<Artifact, Reason> {
    var read :- ReadHeader(file, codec);
    var blob := read.0.blob;
    if blob.offset.Absent? || blob.nbytes.Absent? then Failure(MissingField)
    else if !blob.offset.Number? || !blob.nbytes.Number? then Failure(Raises)
    else if |file| < blob.offset.value + blob.nbytes.value then Failure(FileTooShort)
    else if blob.offset.value < 0 || blob.nbytes.value < 0 then Failure(BadRead)
    else Success(Artifact(blob, blob.offset.value, file[blob.offset.value..][..blob.nbytes.value]))
  }

  /** `KVXArtifact.segment`, as the bytes behind the array it returns. */
  function SegmentOf(artifact: Artifact, name: string): Result<bytes, Reason> {
    if artifact.blob.encoding != Some("segmented") then Failure(NotSegmented)
    else if artifact.blob.segments.NotIterable? then Failure(Raises)
    else if artifact.blob.segments.BadEntry? then Failure(MalformedSegment)
    else FirstNamed(artifact.blob.segments.rows, name, artifact.buffer)
  }

  /** `buffer[start:stop]` for a start and a stop of either sign. */
  function PySlice(s: bytes, start: int, stop: int): bytes {
    var lo := if start < 0 then Max(0, start + |s|) else Min(start, |s|);
    var hi := if stop < 0 then Max(0, stop + |s|) else Min(stop, |s|);
    if lo < hi then s[lo..hi] else []
  }

  function FirstNamed(segments: seq<Segment>, name: string, buffer: bytes): Result<bytes, Reason> {
    if segments == [] then Failure(NoSuchSegment)
    else if segments[0].name != name then FirstNamed(segments[1..], name, buffer)
    else if !IsCanonical(segments[0].dtype) then Failure(OpaqueOnly)
    else
      var raw := PySlice(buffer, segments[0].offset, segments[0].End());
      if !Reshapes(|raw|, ItemSize(segments[0].dtype), segments[0].shape) then Failure(BadShape) else Success(raw)
  }

  function Unknowns(shape: seq<int>): nat {
    if shape == [] then 0 else (if shape[0] < 0 then 1 else 0) + Unknowns(shape[1..])
  }

  /** The product of the dimensions that are given. */
  function Known(shape: seq<int>): nat {
    if shape == [] then 1 else (if shape[0] < 0 then 1 else shape[0]) * Known(shape[1..])
  }

  /** `view` as elements of this size, then `reshape`: one dimension may be -1, to be worked out from the rest. */
  predicate Reshapes(nbytes: nat, size: nat, shape: seq<int>)
    requires size > 0
  {
    && nbytes % size == 0 && (forall i :: 0 <= i < |shape| ==> shape[i] >= -1)
    && if Unknowns(shape) == 0 then nbytes / size == Known(shape)
       else Unknowns(shape) == 1 && Known(shape) > 0 && nbytes / size % Known(shape) == 0
  }

  lemma {:induction false} PlainShapeReshapes(nbytes: nat, size: nat, shape: seq<int>)
    requires size > 0 && nbytes == size * Product(shape) && forall i :: 0 <= i < |shape| ==> shape[i] >= 0
    ensures Reshapes(nbytes, size, shape)
  {
    NoUnknowns(shape);
    assert size * Product(shape) == Product(shape) * size;
    MultipleDivides(Product(shape), size);
  }

  lemma {:induction false} NoUnknowns(shape: seq<int>)
    requires forall i :: 0 <= i < |shape| ==> shape[i] >= 0
    ensures Unknowns(shape) == 0 && Known(shape) == Product(shape)
  {
    if shape != [] {
      NoUnknowns(shape[1..]);
    }
  }

  method ReadSegment(artifact: Artifact, name: string) returns (r: Result<bytes, Reason>)
    ensures r == SegmentOf(artifact, name)
  {
    hide PySlice, Product, Reshapes;
    if artifact.blob.encoding != Some("segmented") {
      return Failure(NotSegmented);
    }
    if artifact.blob.segments.NotIterable? {
      return Failure(Raises);
    }
    if artifact.blob.segments.BadEntry? {
      return Failure(MalformedSegment);
    }
    // offsets are first made absolute, then brought back relative to the mapped payload
    var absolute := seq(|artifact.blob.segments.rows|, i requires 0 <= i < |artifact.blob.segments.rows| =>
      artifact.blob.segments.rows[i].(offset := artifact.base + artifact.blob.segments.rows[i].offset));
    var i: nat := 0;
    while i < |absolute|
      invariant i <= |absolute|
      invariant SegmentOf(artifact, name) == FirstNamed(artifact.blob.segments.rows[i..], name, artifact.buffer)
    {
      ghost var rest := artifact.blob.segments.rows[i..];
      assert rest[0] == artifact.blob.segments.rows[i] && rest[1..] == artifact.blob.segments.rows[i + 1..];
      var seg := absolute[i];
      if seg.name == name {
        if !IsCanonical(seg.dtype) {
          return Failure(OpaqueOnly);
        }
        var start := seg.offset - artifact.base;
        var raw := PySlice(artifact.buffer, start, start + seg.nbytes);
        if !Reshapes(|raw|, ItemSize(seg.dtype), seg.shape) {
          return Failure(BadShape);
        }
        return Success(raw);
      }
      i := i + 1;
    }
    return Failure(NoSuchSegment);
  }
}
