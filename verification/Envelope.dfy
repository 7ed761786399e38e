/** The framing of a sequence-state file: its envelope, and the checkpoint appendix that may follow the body. */
module Envelope {
  import opened Wrappers
  import opened Bytes
  import opened GgsqReader

  // ---------------------------------------------------------------------------
  // The file envelope
  // ---------------------------------------------------------------------------

  const GGSQ_MAGIC: bytes := [0x71, 0x73, 0x67, 0x67]
  const MAX_PROMPT_WORDS := 0x100_0000

  datatype EnvelopeError = Truncated | BadMagic | UnsupportedVersion | TooManyWords

  datatype Envelope = Envelope(version: nat, tokenIds: seq<int>, bodyOffset: nat, bodyLength: nat)

  predicate SupportedVersion(version: nat) {
    version == 2 || version == 3
  }

  function Words(f: bytes, off: nat, n: nat): (ids: seq<int>)
    requires off + 4 * n <= |f|
    ensures |ids| == n
  {
    seq(n, i requires 0 <= i < n => I32(f, off + 4 * i))
  }

  function ParseFileEnvelope(blob: bytes): Result<Envelope, EnvelopeError> {
    if |blob| < 4 then Failure(Truncated) else
    if blob[..4] != GGSQ_MAGIC then Failure(BadMagic) else
    if |blob| < 8 then Failure(Truncated) else
    var version := U32(blob, 4);
    if !SupportedVersion(version) then Failure(UnsupportedVersion) else
    if |blob| < 12 then Failure(Truncated) else
    var n := U32(blob, 8);
    var end := 12 + n * 4;
    if end > |blob| then Failure(Truncated) else
    Success(Envelope(version, Words(blob, 12, n), end, |blob| - end))
  }

  /** How much of a file holds its whole envelope, from the first 12 bytes. */
  function HeaderSize(prefix: bytes): Result<nat, EnvelopeError> {
    if |prefix| < 12 then Failure(Truncated) else
    if prefix[..4] != GGSQ_MAGIC then Failure(BadMagic) else
    var count := U32(prefix, 8);
    if count > MAX_PROMPT_WORDS then Failure(TooManyWords) else Success(12 + 4 * count)
  }

  /** Peeking 12 bytes and then reading what they ask for recovers the envelope of the whole file, and nothing shorter does. */
  lemma {:induction false} PeekIsEnough(f: bytes)
    requires |f| >= 12 && HeaderSize(f[..12]).Success?
    ensures
      var need := HeaderSize(f[..12]).value;
      var whole := ParseFileEnvelope(f);
      && (whole.Success? ==>
           && whole.value.bodyOffset == need <= |f|
           && ParseFileEnvelope(f[..need]) == Success(whole.value.(bodyLength := 0)))
      && (need <= |f| && SupportedVersion(U32(f, 4)) ==> whole.Success?)
      && forall k :: 0 <= k < need && k <= |f| ==> ParseFileEnvelope(f[..k]).Failure?
  {
    var need := HeaderSize(f[..12]).value;
    PrefixEnvelope(f, 12);
    forall k | 0 <= k <= need && k <= |f| ensures k < need ==> ParseFileEnvelope(f[..k]).Failure? {
      PrefixEnvelope(f, k);
    }
    if need <= |f| {
      PrefixEnvelope(f, need);
      PrefixWords(f, need, U32(f, 8));
    }
  }

  lemma PrefixWords(f: bytes, k: nat, n: nat)
    requires 12 + 4 * n <= k <= |f|
    ensures Words(f[..k], 12, n) == Words(f, 12, n)
  {
    forall i | 0 <= i < n ensures I32(f[..k], 12 + 4 * i) == I32(f, 12 + 4 * i) {
      SliceFields(f, 0, k, 12 + 4 * i);
      assert f[0..k] == f[..k];
    }
  }

  lemma PrefixEnvelope(f: bytes, k: nat)
    requires k <= |f|
    ensures k >= 4 ==> f[..k][..4] == f[..4]
    ensures k >= 12 ==> U32(f[..k], 4) == U32(f, 4) && U32(f[..k], 8) == U32(f, 8)
  {
    assert f[0..k] == f[..k];
    if k >= 12 {
      SliceFields(f, 0, k, 4);
      SliceFields(f, 0, k, 8);
    }
  }

  // ---------------------------------------------------------------------------
  // The appendix, framing only
  // ---------------------------------------------------------------------------

  datatype Status = Absent | Ok | Cut | UnknownVersion | Malformed

  datatype CheckpointAppendix = CheckpointAppendix(
    status: Status, offset: Option<int>, nbytes: Option<nat>, version: Option<nat>, count: Option<nat>)
  {
    predicate Usable() {
      status == Ok
    }
  }

  const SCKP_VERSION := 1
  const MAX_TOTAL := 0x40_0000_0000
  const RECORD_SIZE := 16

  /** Three length-prefixed buffers, stepped over; the running total of their lengths is capped. */
  function Buffers(f: bytes, offset: nat, total: nat, k: nat): Result<(nat, nat), Status>
    decreases k
  {
    if k == 0 then Success((offset, total)) else
    if |ReadAt(f, offset, 8)| != 8 then Failure(Cut) else
    var length := U64(f, offset);
    if length > MAX_BUFFER then Failure(Malformed) else
    if total + length > MAX_TOTAL then Failure(Malformed) else
    if offset + 8 + length > |f| then Failure(Cut) else
    Buffers(f, offset + 8 + length, total + length, k - 1)
  }

  function Record(f: bytes, offset: nat, total: nat): Result<(nat, nat), Status> {
    if |ReadAt(f, offset, RECORD_SIZE)| != RECORD_SIZE then Failure(Cut) else
    if ExtentIn(f, offset).Impossible() then Failure(Malformed) else
    Buffers(f, offset + RECORD_SIZE, total, 3)
  }

  function Records(f: bytes, offset: nat, total: nat, n: nat): Result<nat, Status>
    decreases n
  {
    if n == 0 then Success(offset) else
    var (o, t) :- Record(f, offset, total);
    Records(f, o, t, n - 1)
  }

  /** One candidate appendix at `start`; None when its framing holds but does not end where the file does. */
  function StreamAt(f: bytes, start: nat): Option<CheckpointAppendix> {
    if |ReadAt(f, start, 12)| != 12 then
      var version := if |ReadAt(f, start, 8)| == 8 then Some(U32(f, start + 4)) else None;
      Some(CheckpointAppendix(Cut, Some(start), None, version, None))
    else if f[start..start + 4] != SCKP_MAGIC then None
    else
      var version, count := U32(f, start + 4), U32(f, start + 8);
      if version != SCKP_VERSION then Some(CheckpointAppendix(UnknownVersion, Some(start), None, Some(version), Some(count)))
      else if count > MAX_CHECKPOINTS then Some(CheckpointAppendix(Malformed, Some(start), None, Some(version), Some(count)))
      else match Records(f, start + 12, 0, count)
        case Failure(status) => Some(CheckpointAppendix(status, Some(start), None, Some(version), Some(count)))
        case Success(offset) =>
          if offset != |f| then None
          else Some(CheckpointAppendix(Ok, Some(start), Some(offset - start), Some(version), Some(count)))
  }

  method SkipBuffers(f: bytes, start: nat, sum: nat) returns (r: Result<(nat, nat), Status>)
    ensures r == Buffers(f, start, sum, 3)
  {
    var offset: nat, total: nat := start, sum;
    for k := 0 to 3
      invariant Buffers(f, start, sum, 3) == Buffers(f, offset, total, 3 - k)
    {
      var raw := ReadAt(f, offset, 8);
      if |raw| != 8 { return Failure(Cut); }
      var length := U64(f, offset);
      if length > MAX_BUFFER { return Failure(Malformed); }
      total := total + length;
      if total > MAX_TOTAL { return Failure(Malformed); }
      offset := offset + 8 + length;
      if offset > |f| { return Failure(Cut); }
    }
    return Success((offset, total));
  }

  method ParseStream(f: bytes, start: nat) returns (r: Option<CheckpointAppendix>)
    ensures r == StreamAt(f, start)
  {
    hide Buffers;
    var head := ReadAt(f, start, 12);
    if |head| != 12 {
      var partial := ReadAt(f, start, 8);
      var version := if |partial| == 8 then Some(U32(f, start + 4)) else None;
      return Some(CheckpointAppendix(Cut, Some(start), None, version, None));
    }
    if f[start..start + 4] != SCKP_MAGIC { return None; }
    var version, count := U32(f, start + 4), U32(f, start + 8);
    if version != SCKP_VERSION {
      return Some(CheckpointAppendix(UnknownVersion, Some(start), None, Some(version), Some(count)));
    }
    if count > MAX_CHECKPOINTS {
      return Some(CheckpointAppendix(Malformed, Some(start), None, Some(version), Some(count)));
    }
    var offset: nat, total: nat := start + 12, 0;
    for i := 0 to count
      invariant Records(f, start + 12, 0, count) == Records(f, offset, total, count - i)
    {
      var record := ReadAt(f, offset, RECORD_SIZE);
      if |record| != RECORD_SIZE {
        return Some(CheckpointAppendix(Cut, Some(start), None, Some(version), Some(count)));
      }
      if ExtentIn(f, offset).Impossible() {
        return Some(CheckpointAppendix(Malformed, Some(start), None, Some(version), Some(count)));
      }
      var skipped := SkipBuffers(f, offset + RECORD_SIZE, total);
      if skipped.Failure? {
        return Some(CheckpointAppendix(skipped.error, Some(start), None, Some(version), Some(count)));
      }
      offset, total := skipped.value.0, skipped.value.1;
    }
    if offset != |f| { return None; }
    return Some(CheckpointAppendix(Ok, Some(start), Some(offset - start), Some(version), Some(count)));
  }

  // ---------------------------------------------------------------------------
  // Deep and shallow agree
  // ---------------------------------------------------------------------------

  function PayloadTotal(blobs: seq<CheckpointBlob>): nat
    decreases |blobs|
  {
    if blobs == [] then 0 else PayloadTotal(blobs[..|blobs| - 1]) + blobs[|blobs| - 1].targetNbytes
  }

  lemma {:induction false} PayloadTotalExtend(blobs: seq<CheckpointBlob>, blob: CheckpointBlob)
    ensures PayloadTotal(blobs + [blob]) == PayloadTotal(blobs) + blob.targetNbytes
  {
    assert (blobs + [blob])[..|blobs|] == blobs;
  }

  lemma BufferStep(f: bytes, off: nat, position: nat, length: nat, o: nat, total: nat, k: nat)
    requires BufferAt(View(f, |f|), off) == Success((position, length, o)) && k > 0
    ensures position == off + 8 && o == position + length
    ensures Buffers(f, off, total, k) ==
      if total + length <= MAX_TOTAL then Buffers(f, o, total + length, k - 1) else Failure(Malformed)
  {
  }

  lemma {:induction false} BuffersDone(f: bytes, offset: nat, total: nat)
    ensures Buffers(f, offset, total, 0) == Success((offset, total))
  {
  }

  lemma CheckpointParts(v: View, off: nat, layers: seq<int>, blob: CheckpointBlob, o: nat)
    returns (p1: nat, o1: nat, p2: nat, o2: nat, p3: nat)
    requires CheckpointAt(v, off, layers) == Success((blob, o))
    ensures off + RECORD_SIZE <= |v.file| && !ExtentIn(v.file, off).Impossible()
    ensures BufferAt(v, off + RECORD_SIZE) == Success((p1, blob.targetNbytes, o1))
    ensures BufferAt(v, o1) == Success((p2, 0, o2))
    ensures BufferAt(v, o2) == Success((p3, 0, o))
  {
    hide TargetAt, BufferAt;
    var (a1, _, b1) := BufferAt(v, off + RECORD_SIZE).value;
    var (a2, n2, b2) := BufferAt(v, b1).value;
    var (a3, n3, b3) := BufferAt(v, b2).value;
    p1, o1, p2, o2, p3 := a1, b1, a2, b2, a3;
    assert (n2, n3, b3) == (0, 0, o);
  }

  /** A checkpoint the decoding reader accepts is stepped over by the framing parser unless it breaks the total's cap. */
  lemma RecordAgrees(f: bytes, off: nat, layers: seq<int>, total: nat, blob: CheckpointBlob, o: nat)
    requires CheckpointAt(View(f, |f|), off, layers) == Success((blob, o)) && total <= MAX_TOTAL
    ensures o == off + RECORD_SIZE + 24 + blob.targetNbytes
    ensures Record(f, off, total) ==
      if total + blob.targetNbytes <= MAX_TOTAL then Success((o, total + blob.targetNbytes)) else Failure(Malformed)
  {
    hide CheckpointAt, BufferAt, Buffers, ExtentIn;
    var p1, o1, p2, o2, p3 := CheckpointParts(View(f, |f|), off, layers, blob, o);
    BuffersDone(f, o, total + blob.targetNbytes);
    BufferStep(f, off + RECORD_SIZE, p1, blob.targetNbytes, o1, total, 3);
    BufferStep(f, o1, p2, 0, o2, total + blob.targetNbytes, 2);
    BufferStep(f, o2, p3, 0, o, total + blob.targetNbytes, 1);
  }

  lemma {:induction false} RecordsAgree(
      f: bytes, off: nat, n: nat, layers: seq<int>, acc: seq<CheckpointBlob>, total: nat, blobs: seq<CheckpointBlob>, o: nat)
    requires CheckpointsAt(View(f, |f|), off, n, layers, acc) == Success((blobs, o))
    requires total == PayloadTotal(acc) <= MAX_TOTAL
    ensures |blobs| == |acc| + n && PayloadTotal(blobs) >= total
    ensures o == off + (RECORD_SIZE + 24) * n + PayloadTotal(blobs) - total
    ensures Records(f, off, total, n) == if PayloadTotal(blobs) <= MAX_TOTAL then Success(o) else Failure(Malformed)
    decreases n
  {
    hide CheckpointAt, Record;
    if n > 0 {
      var (blob, next) := CheckpointAt(View(f, |f|), off, layers).value;
      RecordAgrees(f, off, layers, total, blob, next);
      PayloadTotalExtend(acc, blob);
      if total + blob.targetNbytes <= MAX_TOTAL {
        RecordsAgree(f, next, n - 1, layers, acc + [blob], total + blob.targetNbytes, blobs, o);
      } else {
        CheckpointsGrow(f, next, n - 1, layers, acc + [blob], blobs, o);
      }
    }
  }

  lemma {:induction false} CheckpointsGrow(
      f: bytes, off: nat, n: nat, layers: seq<int>, acc: seq<CheckpointBlob>, blobs: seq<CheckpointBlob>, o: nat)
    requires CheckpointsAt(View(f, |f|), off, n, layers, acc) == Success((blobs, o))
    ensures |blobs| == |acc| + n && PayloadTotal(blobs) >= PayloadTotal(acc)
    ensures o == off + (RECORD_SIZE + 24) * n + PayloadTotal(blobs) - PayloadTotal(acc)
    decreases n
  {
    hide CheckpointAt;
    if n > 0 {
      var (blob, next) := CheckpointAt(View(f, |f|), off, layers).value;
      RecordAgrees(f, off, layers, 0, blob, next);
      PayloadTotalExtend(acc, blob);
      CheckpointsGrow(f, next, n - 1, layers, acc + [blob], blobs, o);
    }
  }

  lemma HeaderParts(f: bytes, start: nat, layers: seq<int>, blobs: seq<CheckpointBlob>) returns (count: nat)
    requires AppendixAt(f, start, |f|, layers) == Success(blobs)
    ensures start + 12 <= |f| && f[start..start + 4] == SCKP_MAGIC
    ensures U32(f, start + 4) == SCKP_VERSION && U32(f, start + 8) == count <= MAX_CHECKPOINTS
    ensures CheckpointsAt(View(f, |f|), start + 12, count, layers, []) == Success((blobs, |f|))
  {
    hide CheckpointsAt;
    var (n, o) := AppendixHeaderAt(View(f, |f|), start).value;
    var (read, end) := CheckpointsAt(View(f, |f|), start + 12, n, layers, []).value;
    assert (read, end) == (blobs, |f|);
    count := n;
  }

  /** What the decoding reader accepts up to the end of the file, the framing parser reports usable with the same extent and
      count, exactly when the payloads together stay within its cap; past the cap it calls the same bytes malformed. */
  lemma {:induction false} DeepAndShallowAgree(f: bytes, start: nat, layers: seq<int>, blobs: seq<CheckpointBlob>)
    requires AppendixAt(f, start, |f|, layers) == Success(blobs)
    ensures |f| - start == 12 + (RECORD_SIZE + 24) * |blobs| + PayloadTotal(blobs)
    ensures StreamAt(f, start) == Some(
      if PayloadTotal(blobs) <= MAX_TOTAL
      then CheckpointAppendix(Ok, Some(start), Some(|f| - start), Some(SCKP_VERSION), Some(|blobs|))
      else CheckpointAppendix(Malformed, Some(start), None, Some(SCKP_VERSION), Some(|blobs|)))
  {
    hide CheckpointsAt, Records, AppendixAt, U32;
    var count := HeaderParts(f, start, layers, blobs);
    RecordsAgree(f, start + 12, count, layers, [], 0, blobs, |f|);
  }
}
