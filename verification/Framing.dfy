/** What the framing parsers of a sequence-state file report, stated on the bytes: `kv_rosetta/adapters/ggsq_envelope.py`. */
module Framing {
  import opened Wrappers
  import opened Bytes
  import opened GgsqReader
  import opened Envelope

  // The envelope of the file

  /** Magic, one of the two versions, the count of prompt words, the words, and the body behind them. */
  predicate IsEnvelope(f: bytes, e: Envelope) {
    && |f| >= 12 && f[..4] == [0x71, 0x73, 0x67, 0x67]
    && U32(f, 4) == e.version && (e.version == 2 || e.version == 3)
    && |e.tokenIds| == U32(f, 8) && e.bodyOffset == 12 + 4 * |e.tokenIds|
    && |f| == e.bodyOffset + e.bodyLength
    && forall i :: 0 <= i < |e.tokenIds| ==> e.tokenIds[i] == I32(f, 12 + 4 * i)
  }

  lemma WordsExactly(f: bytes, off: nat, n: nat, ids: seq<int>)
    requires off + 4 * n <= |f|
    ensures Words(f, off, n) == ids <==> |ids| == n && forall i :: 0 <= i < n ==> ids[i] == I32(f, off + 4 * i)
  {
    hide I32;
  }

  /** The envelope is read exactly where there is one; each refusal has its own condition. */
  lemma EnvelopeExactly(f: bytes, e: Envelope)
    ensures ParseFileEnvelope(f) == Success(e) <==> IsEnvelope(f, e)
    ensures ParseFileEnvelope(f) == Failure(BadMagic) <==> |f| >= 4 && f[..4] != [0x71, 0x73, 0x67, 0x67]
    ensures ParseFileEnvelope(f) == Failure(UnsupportedVersion) <==>
      |f| >= 8 && f[..4] == [0x71, 0x73, 0x67, 0x67] && U32(f, 4) != 2 && U32(f, 4) != 3
    ensures HeaderSize(f) == Success(e.bodyOffset) <==>
      && |f| >= 12 && f[..4] == [0x71, 0x73, 0x67, 0x67]
      && U32(f, 8) <= 0x100_0000 && e.bodyOffset == 12 + 4 * U32(f, 8)
  {
    hide U32, I32, Words;
    if |f| >= 12 && 12 + 4 * U32(f, 8) <= |f| {
      WordsExactly(f, 12, U32(f, 8), e.tokenIds);
      var end := 12 + 4 * U32(f, 8);
      assert |f| == e.bodyOffset + e.bodyLength && e.bodyOffset == end ==> e.bodyLength == |f| - end;
    }
  }

  // The buffers of a record

  /** A length within its limit and as many bytes behind it, all inside the file. */
  predicate IsBuffer(f: bytes, at: nat, length: nat) {
    at + 8 + length <= |f| && U64(f, at) == length <= 0x4_0000_0000
  }

  function Sum(lengths: seq<nat>): nat {
    if lengths == [] then 0 else lengths[0] + Sum(lengths[1..])
  }

  predicate AreBuffers(f: bytes, at: nat, lengths: seq<nat>)
    decreases |lengths|
  {
    lengths == [] || (IsBuffer(f, at, lengths[0]) && AreBuffers(f, at + 8 + lengths[0], lengths[1..]))
  }

  /** Why the buffer at an offset is not stepped over, when those before it hold `total` bytes. */
  predicate BufferFault(f: bytes, at: nat, total: nat, status: Status) {
    if at + 8 > |f| then status == Cut
    else if U64(f, at) > 0x4_0000_0000 || total + U64(f, at) > 0x40_0000_0000 then status == Malformed
    else at + 8 + U64(f, at) > |f| && status == Cut
  }

  lemma {:induction false} BuffersExactly(f: bytes, at: nat, total: nat, k: nat) returns (lengths: seq<nat>)
    ensures |lengths| <= k && AreBuffers(f, at, lengths)
    ensures lengths != [] ==> total + Sum(lengths) <= 0x40_0000_0000
    ensures
      var end, sum := at + 8 * |lengths| + Sum(lengths), total + Sum(lengths);
      if |lengths| == k then Buffers(f, at, total, k) == Success((end, sum))
      else Buffers(f, at, total, k).Failure? && BufferFault(f, end, sum, Buffers(f, at, total, k).error)
    decreases k
  {
    hide U64;
    lengths := [];
    if k > 0 && at + 8 <= |f| {
      var length := U64(f, at);
      if length <= MAX_BUFFER && total + length <= MAX_TOTAL && at + 8 + length <= |f| {
        var more := BuffersExactly(f, at + 8 + length, total + length, k - 1);
        lengths := [length] + more;
        assert lengths[1..] == more;
      }
    }
  }

  // The records

  /** An extent that can be, and three buffers. */
  predicate IsRecord(f: bytes, at: nat, lengths: seq<nat>) {
    && at + 16 <= |f| && I64(f, at) >= 0 && 0 <= I32(f, at + 8) <= I32(f, at + 12)
    && |lengths| == 3 && AreBuffers(f, at + 16, lengths)
  }

  predicate AreRecords(f: bytes, at: nat, records: seq<seq<nat>>)
    decreases |records|
  {
    records == [] || (IsRecord(f, at, records[0]) && AreRecords(f, at + 40 + Sum(records[0]), records[1..]))
  }

  function Total(records: seq<seq<nat>>): nat {
    if records == [] then 0 else Sum(records[0]) + Total(records[1..])
  }

  /** Where the framing of a record stops, behind fewer than its three buffers. */
  ghost predicate StopsBehind(f: bytes, at: nat, total: nat, lengths: seq<nat>, status: Status) {
    && |lengths| < 3 && AreBuffers(f, at + 16, lengths)
    && BufferFault(f, at + 16 + 8 * |lengths| + Sum(lengths), total + Sum(lengths), status)
  }

  ghost predicate RecordFault(f: bytes, at: nat, total: nat, status: Status) {
    if at + 16 > |f| then status == Cut
    else if I64(f, at) < 0 || I32(f, at + 8) < 0 || I32(f, at + 12) < I32(f, at + 8) then status == Malformed
    else exists lengths :: StopsBehind(f, at, total, lengths, status)
  }

  lemma RecordExactly(f: bytes, at: nat, total: nat) returns (lengths: seq<nat>)
    ensures Record(f, at, total).Success? ==>
      && IsRecord(f, at, lengths) && total + Sum(lengths) <= 0x40_0000_0000
      && Record(f, at, total).value == (at + 40 + Sum(lengths), total + Sum(lengths))
    ensures Record(f, at, total).Failure? ==> RecordFault(f, at, total, Record(f, at, total).error)
  {
    hide Buffers, AreBuffers, BufferFault, I64, I32;
    lengths := BuffersExactly(f, at + 16, total, 3);
    if Buffers(f, at + 16, total, 3).Failure? {
      assert StopsBehind(f, at, total, lengths, Buffers(f, at + 16, total, 3).error);
    }
  }

  lemma {:induction false} RecordsExactly(f: bytes, at: nat, total: nat, n: nat) returns (records: seq<seq<nat>>)
    ensures |records| <= n && AreRecords(f, at, records)
    ensures records != [] ==> total + Total(records) <= 0x40_0000_0000
    ensures
      var end := at + 40 * |records| + Total(records);
      if |records| == n then Records(f, at, total, n) == Success(end)
      else Records(f, at, total, n).Failure? && RecordFault(f, end, total + Total(records), Records(f, at, total, n).error)
    decreases n
  {
    hide Record, IsRecord, RecordFault, Sum;
    records := [];
    if n > 0 {
      var lengths := RecordExactly(f, at, total);
      if Record(f, at, total).Success? {
        var (o, t) := Record(f, at, total).value;
        var more := RecordsExactly(f, o, t, n - 1);
        records := [lengths] + more;
        assert records[1..] == more;
      }
    }
  }

  /**
   * The verdict on a candidate: what its twelve bytes decide by themselves, and behind them as many whole records as
   * the file holds, of those announced. All of them and nothing more is an appendix, all of them and something more is
   * none, and fewer have the fault of the first one that is not whole.
   */
  lemma FramedExactly(f: bytes, start: nat) returns (records: seq<seq<nat>>)
    ensures start + 8 > |f| ==> StreamAt(f, start) == Some(CheckpointAppendix(Cut, Some(start), None, None, None))
    ensures start + 8 <= |f| < start + 12 ==>
      StreamAt(f, start) == Some(CheckpointAppendix(Cut, Some(start), None, Some(U32(f, start + 4)), None))
    ensures start + 12 <= |f| ==>
      var r, version, count := StreamAt(f, start), U32(f, start + 4), U32(f, start + 8);
      if f[start..start + 4] != [0x53, 0x43, 0x4B, 0x50] then r == None
      else if version != 1 then r == Some(CheckpointAppendix(UnknownVersion, Some(start), None, Some(version), Some(count)))
      else if count > 1024 then r == Some(CheckpointAppendix(Malformed, Some(start), None, Some(version), Some(count)))
      else
        var end := start + 12 + 40 * |records| + Total(records);
        && |records| <= count && AreRecords(f, start + 12, records) && Total(records) <= 0x40_0000_0000
        && if |records| < count
           then r.Some? && r == Some(CheckpointAppendix(r.value.status, Some(start), None, Some(version), Some(count)))
                && RecordFault(f, end, Total(records), r.value.status)
           else r == if end != |f| then None
                     else Some(CheckpointAppendix(Ok, Some(start), Some(|f| - start), Some(version), Some(count)))
  {
    hide Records, AreRecords, RecordFault, U32;
    records := [];
    if start + 12 <= |f| {
      records := RecordsExactly(f, start + 12, 0, U32(f, start + 8));
      if records == [] {
        assert Total(records) == 0;
      }
    }
  }
}
