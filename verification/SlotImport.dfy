/** Importing a container into a slot: `LlamaCppHTTPAdapter.import_` in `kv_rosetta/adapters/llamacpp_http.py`. */
module SlotImport {
  import opened Wrappers
  import opened Bytes
  import opened SlotServer
  import Container
  import ContainerRoundTrip

  const COMPOUND_FORMAT := "ggsq/3+sckp/1"

  /** The `coverage` object of a header; a field that is not an integer is None. */
  datatype Coverage = Coverage(format: Option<string>, checkpoint: Checkpoint)

  /**
   * What is learned of the runtime before the payload is staged. Its format is advertised or read off a saved
   * copy of the slot, which leaves the slot as it was; None when neither can be had.
   */
  datatype Runtime = Runtime(supported: bool, modelDigest: string, abiDigest: string, format: Option<string>)

  /** `declares` is what `int` makes of the token count in whatever stands for a coverage, None where it raises. */
  datatype Artifact = Artifact(
    file: bytes,
    modelDigest: string,
    abiDigest: string,
    format: string,
    coverage: Option<Coverage>,
    declares: Option<int>,
    tokens: seq<int>)

  datatype Request = Request(savePath: bool, expectedAbi: string, verifyReuse: bool)

  datatype Refusal =
    | Raises // no refusal: an exception goes to the caller
    | NoSavePath | FailedVerification | Unsupported | FormatUnknown | WrongModel | WrongAbi | WrongFormat
    | CoverageMissing | CoverageDisagrees | CoverageUnreadable | NoCoverage | StagingFailed
    | RestoreFailed | MetadataDiffers | NothingRestored | NoTokens | ProbeFailed
    | ReuseNotDeclared | TailNotReprocessed | PristineFailed

  /** The outcome of an import and every call it made. */
  datatype Report = Report(refusal: Option<Refusal>, calls: seq<Call>)

  predicate IsCompound(format: string) {
    format == COMPOUND_FORMAT
  }

  /** `verify_header`, with the full `verify` for the artifacts it cannot answer for. */
  function ArtifactCheck(file: bytes, codec: Container.Codec): Container.Outcome {
    if Container.VerifyHeader(file, codec) == Container.Bad(Container.NeedsVerify)
    then Container.VerifyFile(file, codec)
    else Container.VerifyHeader(file, codec)
  }

  function CheckCoverage(a: Artifact): Option<Refusal> {
    if IsCompound(a.format) then
      if a.coverage.None? then Some(CoverageMissing)
      else if a.coverage.value.format != Some(a.format) then Some(CoverageDisagrees)
      else
        var c := a.coverage.value.checkpoint;
        if c.count.None? || c.nbytes.None? || c.nTokens.None? || c.posMin.None? || c.posMax.None? then Some(CoverageUnreadable)
        else if c.nTokens.value <= 0 || c.count.value <= 0 then Some(NoCoverage)
        else None
    else if a.coverage.Some? && a.coverage.value.format.Some? && IsCompound(a.coverage.value.format.value) then Some(CoverageDisagrees)
    else None
  }

  /** Every check before the payload is staged. */
  function Preflight(a: Artifact, req: Request, runtime: Runtime, codec: Container.Codec): Option<Refusal> {
    if !req.savePath then Some(NoSavePath)
    else if ArtifactCheck(a.file, codec).Raised? then Some(Raises)
    else if ArtifactCheck(a.file, codec).Bad? then Some(FailedVerification)
    else if !runtime.supported then Some(Unsupported)
    else if runtime.format.None? then Some(FormatUnknown)
    else if a.modelDigest != "" && a.modelDigest != runtime.modelDigest then Some(WrongModel)
    else
      var expected := if req.expectedAbi != "" then req.expectedAbi else runtime.abiDigest;
      if a.abiDigest != "" && expected != "" && a.abiDigest != expected then Some(WrongAbi)
      else if a.format != runtime.format.value then Some(WrongFormat)
      else CheckCoverage(a)
  }

  /**
   * Coverage the probe must reproduce exactly; 0 when none is declared. The count of a compound artifact has been
   * checked to be an integer before; that of any other is first read here, and None where that raises.
   */
  function Declared(a: Artifact): Option<int> {
    if IsCompound(a.format) && a.coverage.Some? then a.coverage.value.checkpoint.nTokens else a.declares
  }

  predicate Probes(a: Artifact, req: Request) {
    IsCompound(a.format) || req.verifyReuse
  }

  /** From the first restore on, against a server that may answer anything. */
  function Attempt(a: Artifact, req: Request, content: bytes, maxTail: int, server: Server): Report {
    var one := [Restore(content)];
    var restored := Answer(server, one);
    if restored == Failed then Report(Some(RestoreFailed), one)
    else if restored == Garbled || restored.nRestored.None? then Report(Some(Raises), one)
    else if IsCompound(a.format) && a.coverage.Some? && a.coverage.value.checkpoint != restored.checkpoint then
      Report(Some(MetadataDiffers), one + [Erase])
    else if restored.nRestored.value <= 0 then Report(Some(NothingRestored), one)
    else RepeatsBytes(restored.countsBytes,
      if !Probes(a, req) then Report(None, one)
      else if a.tokens == [] then Report(Some(NoTokens), one)
      else Probe(a, content, maxTail, server, one))
  }

  /** Every report from here on repeats the byte count of the restore, except the one of a probe that failed. */
  function RepeatsBytes(countsBytes: bool, report: Report): Report {
    if !countsBytes && report.refusal != Some(ProbeFailed) then report.(refusal := Some(Raises)) else report
  }

  function Probe(a: Artifact, content: bytes, maxTail: int, server: Server, calls: seq<Call>): Report {
    var two := calls + [Completion(a.tokens)];
    var probe := Answer(server, two);
    if probe == Failed then Report(Some(ProbeFailed), two)
    else if probe == Garbled || Declared(a).None? then Report(Some(Raises), two)
    else
    var pristine := RestorePristine(content, server, two);
    var uncovered := |a.tokens| - probe.cacheN;
    if Declared(a).value != 0 && probe.cacheN != Declared(a).value then Report(Some(ReuseNotDeclared), pristine.1)
    else if uncovered < 1 || uncovered > maxTail || probe.promptN != uncovered then Report(Some(TailNotReprocessed), pristine.1)
    else if !pristine.0 then Report(Some(PristineFailed), pristine.1)
    else Report(None, pristine.1)
  }

  /** `_restore_pristine`: erase, restore again, and one more erase if either fails. */
  function RestorePristine(content: bytes, server: Server, calls: seq<Call>): (bool, seq<Call>) {
    var erased := calls + [Erase];
    if Answer(server, erased) == Failed then (false, erased + [Erase]) else
    var restored := erased + [Restore(content)];
    if Answer(server, restored) == Failed then (false, restored + [Erase]) else (true, restored)
  }

  function StagingRefusal(reason: Container.Reason): Refusal {
    if Container.IsContainerError(reason) then StagingFailed else Raises
  }

  function ImportReport(a: Artifact, req: Request, runtime: Runtime, codec: Container.Codec, maxTail: int, server: Server): Report {
    var refused := Preflight(a, req, runtime, codec);
    if refused.Some? then Report(refused, []) else
    var staged := Container.Extracted(a.file, CHUNK, codec);
    if staged.Failure? then Report(Some(StagingRefusal(staged.error)), [])
    else Attempt(a, req, staged.value, maxTail, server)
  }

  const CHUNK := 0x40_0000

  class Importer {
    const client: Client
    const maxTail: int           // `max_uncovered_tail`, 8 unless configured
    var staged: set<string>      // names this adapter still has to remove
    var disk: map<string, bytes> // files in the slot directory

    constructor (server: Server, maxTail: int, disk: map<string, bytes>)
      ensures staged == {} && this.disk == disk && this.maxTail == maxTail && fresh(client)
      ensures client.server == server && client.calls == []
    {
      client := new Client(server);
      this.maxTail := maxTail;
      staged := {};
      this.disk := disk;
    }

    /** `import_`: the staged copy is gone afterwards on every path. */
    method Import(a: Artifact, req: Request, runtime: Runtime, codec: Container.Codec, name: string) returns (refusal: Option<Refusal>)
      requires client.calls == []
      modifies this`staged, this`disk, client`calls
      ensures Report(refusal, client.calls) == ImportReport(a, req, runtime, codec, maxTail, client.server)
      ensures Preflight(a, req, runtime, codec).None? ==> disk.Keys == old(disk.Keys) - old(staged) - {name}
      ensures Preflight(a, req, runtime, codec).Some? ==> disk.Keys == old(disk.Keys) - old(staged)
      ensures staged == {} && forall f :: f in disk ==> disk[f] == old(disk)[f]
    {
      hide Preflight, Container.Extracted, RestorePristine;
      refusal := Preflight(a, req, runtime, codec);
      if refusal.None? {
        staged := staged + {name};
        refusal := StageAndRestore(a, req, codec, name);
      }
      assert forall f :: f in disk && f != name ==> f in disk - {name};
      assert forall f :: f in old(disk) && f != name ==> f in old(disk) - {name};
      disk := disk - staged;
      staged := {};
    }

    method StageAndRestore(a: Artifact, req: Request, codec: Container.Codec, name: string) returns (refusal: Option<Refusal>)
      requires client.calls == []
      modifies this`disk, client`calls
      ensures var content := Container.Extracted(a.file, CHUNK, codec);
        Report(refusal, client.calls)
        == if content.Failure? then Report(Some(StagingRefusal(content.error)), []) else Attempt(a, req, content.value, maxTail, client.server)
      ensures disk - {name} == old(disk) - {name}
    {
      hide Container.Extracted, RestorePristine;
      var extracted := Container.ExtractPayload(a.file, CHUNK, codec);
      if extracted.Failure? {
        disk := disk - {name};
        return Some(StagingRefusal(extracted.error));
      }
      var content := extracted.value;
      disk := disk[name := content];
      var restored := client.Post(Restore(disk[name]));
      assert client.calls == [Restore(content)];
      if restored == Failed {
        return Some(RestoreFailed);
      }
      if restored == Garbled || restored.nRestored.None? {
        return Some(Raises);
      }
      if IsCompound(a.format) && a.coverage.Some? && a.coverage.value.checkpoint != restored.checkpoint {
        client.BestEffortErase();
        return Some(MetadataDiffers);
      }
      if restored.nRestored.value <= 0 {
        return Some(NothingRestored);
      }
      refusal := None;
      if IsCompound(a.format) || req.verifyReuse {
        if a.tokens == [] {
          refusal := Some(NoTokens);
        } else {
          refusal := VerifyReuse(a, name);
        }
      }
      if !restored.countsBytes && refusal != Some(ProbeFailed) {
        return Some(Raises);
      }
    }

    method VerifyReuse(a: Artifact, name: string) returns (refusal: Option<Refusal>)
      requires name in disk
      modifies client`calls
      ensures Report(refusal, client.calls) == Probe(a, disk[name], maxTail, client.server, old(client.calls))
    {
      hide RestorePristine;
      var probe := client.Post(Completion(a.tokens));
      if probe == Failed {
        return Some(ProbeFailed);
      }
      if probe == Garbled {
        return Some(Raises);
      }
      var uncovered := |a.tokens| - probe.cacheN;
      var declared := Declared(a);
      if declared.None? {
        return Some(Raises);
      }
      if declared.value != 0 && probe.cacheN != declared.value {
        var _ := Pristine(disk[name]);
        return Some(ReuseNotDeclared);
      }
      if uncovered < 1 || uncovered > maxTail || probe.promptN != uncovered {
        var _ := Pristine(disk[name]);
        return Some(TailNotReprocessed);
      }
      var pristine := Pristine(disk[name]);
      if !pristine {
        return Some(PristineFailed);
      }
      return None;
    }

    method Pristine(content: bytes) returns (ok: bool)
      modifies client`calls
      ensures (ok, client.calls) == RestorePristine(content, client.server, old(client.calls))
    {
      var reply := client.Post(Erase);
      if reply != Failed {
        reply := client.Post(Restore(content));
      }
      if reply == Failed {
        client.BestEffortErase();
        return false;
      }
      return true;
    }
  }

  // Properties

  predicate NoCompletionFrom(calls: seq<Call>, k: nat) {
    forall i :: k <= i < |calls| ==> !calls[i].Completion?
  }

  lemma PristineEnds(content: bytes, server: Server, calls: seq<Call>)
    ensures var (ok, after) := RestorePristine(content, server, calls);
      && |after| >= |calls| + 1 && after[..|calls|] == calls && NoCompletionFrom(after, |calls|)
      && if ok then EndsInRestore(server, after, content) && Contents(server, after) == Exactly(content) else EndsInErase(after)
  {
  }

  /**
   * Success means the slot holds exactly the payload that was verified while it was staged: the
   * last call is a restore of it that the server confirmed, so no completion comes after it.
   */
  lemma SuccessHoldsThePayload(a: Artifact, req: Request, runtime: Runtime, codec: Container.Codec, maxTail: int, server: Server)
    requires ImportReport(a, req, runtime, codec, maxTail, server).refusal.None?
    ensures var calls := ImportReport(a, req, runtime, codec, maxTail, server).calls;
      && Container.Extracted(a.file, CHUNK, codec).Success?
      && EndsInRestore(server, calls, Container.Extracted(a.file, CHUNK, codec).value)
      && Contents(server, calls) == Exactly(Container.Extracted(a.file, CHUNK, codec).value)
  {
    hide Preflight, Container.Extracted, RestorePristine;
    var content := Container.Extracted(a.file, CHUNK, codec).value;
    if Probes(a, req) {
      PristineEnds(content, server, [Restore(content)] + [Completion(a.tokens)]);
    }
  }

  /** The server restored the checkpoints the artifact declares, and the declaration is not empty. */
  predicate RestoredAsDeclared(a: Artifact, calls: seq<Call>, server: Server) {
    && a.coverage.Some? && Declared(a).Some? && Declared(a).value > 0 && calls != []
    && Answer(server, calls[..1]).Restored? && Answer(server, calls[..1]).checkpoint == a.coverage.value.checkpoint
  }

  /**
   * What a success says about reuse. A compound artifact is always probed, whatever the caller
   * asked; a probe shows that all but a short tail was reused, that exactly that tail was
   * reprocessed, and that reuse equals the declared coverage if there is one.
   */
  lemma SuccessProvesReuse(a: Artifact, req: Request, runtime: Runtime, codec: Container.Codec, maxTail: int, server: Server)
    requires ImportReport(a, req, runtime, codec, maxTail, server).refusal.None?
    ensures IsCompound(a.format) || req.verifyReuse <==>
      ProbeCompleted(ImportReport(a, req, runtime, codec, maxTail, server).calls, server, a.tokens)
    ensures var calls := ImportReport(a, req, runtime, codec, maxTail, server).calls;
      IsCompound(a.format) || req.verifyReuse ==>
        var probe := Answer(server, calls[..2]);
        probe.Completed? && probe.cacheN + probe.promptN == |a.tokens| && 1 <= probe.promptN <= maxTail
        && Declared(a).Some? && (Declared(a).value != 0 ==> probe.cacheN == Declared(a).value)
    ensures IsCompound(a.format) ==> RestoredAsDeclared(a, ImportReport(a, req, runtime, codec, maxTail, server).calls, server)
  {
    hide Container.Extracted, RestorePristine, ArtifactCheck;
    var content := Container.Extracted(a.file, CHUNK, codec).value;
    var calls := ImportReport(a, req, runtime, codec, maxTail, server).calls;
    if Probes(a, req) {
      var two := [Restore(content)] + [Completion(a.tokens)];
      PristineEnds(content, server, two);
      assert calls[..2] == two;
      assert calls[..1] == two[..1] == [Restore(content)];
    }
  }

  /**
   * After a probe the server completed, an import that does not succeed puts the pristine payload back or ends in an
   * attempt to erase the slot, if and only if the declared token count can be read. A plain artifact's is read only
   * then: where it cannot be, an exception leaves the probe's token in the slot.
   */
  lemma RefusalAfterProbeCleansUp(a: Artifact, req: Request, runtime: Runtime, codec: Container.Codec, maxTail: int, server: Server)
    requires ImportReport(a, req, runtime, codec, maxTail, server).refusal.Some?
    requires ProbeCompleted(ImportReport(a, req, runtime, codec, maxTail, server).calls, server, a.tokens)
    ensures var calls := ImportReport(a, req, runtime, codec, maxTail, server).calls;
      && Container.Extracted(a.file, CHUNK, codec).Success?
      && NoCompletionFrom(calls, 2)
      && (Declared(a).Some? <==>
            EndsInErase(calls) || Contents(server, calls) == Exactly(Container.Extracted(a.file, CHUNK, codec).value))
      && (Declared(a).None? ==> Contents(server, calls) == WithProbeToken(Container.Extracted(a.file, CHUNK, codec).value))
  {
    hide Preflight, Container.Extracted, RestorePristine;
    var content := Container.Extracted(a.file, CHUNK, codec).value;
    var one: seq<Call> := [Restore(content)];
    var two := one + [Completion(a.tokens)];
    PristineEnds(content, server, two);
    var calls := ImportReport(a, req, runtime, codec, maxTail, server).calls;
    assert calls == two ==> calls[..2] == two;
    var (ok, after) := RestorePristine(content, server, two);
    assert RestorePristine(content, server, two) == (ok, after);
    assert two[..1] == one;
  }

  /** The calls end in an erase, or in a restore after the first. */
  predicate CleansUp(calls: seq<Call>) {
    EndsInErase(calls) || (|calls| > 1 && calls[|calls| - 1].Restore?)
  }

  /** The restore answered and, for a compound artifact, with the checkpoints the artifact declares. */
  predicate RestoredMatching(a: Artifact, restored: Reply) {
    restored.Restored? && restored.nRestored.Some? && (IsCompound(a.format) && a.coverage.Some? ==> a.coverage.value.checkpoint == restored.checkpoint)
  }

  /** The guards that lead out of the import without touching the slot again. */
  predicate LeavesSlot(a: Artifact, req: Request, content: bytes, server: Server) {
    var one := [Restore(content)];
    var restored := Answer(server, one);
    || restored == Failed || restored == Garbled
    || restored.nRestored.None?
    || (RestoredMatching(a, restored)
        && (restored.nRestored.value <= 0
            || (!Probes(a, req) && !restored.countsBytes)
            || (Probes(a, req) && (a.tokens == [] || Declared(a).None? || Answer(server, one + [Completion(a.tokens)]) in {Failed, Garbled}))))
  }

  /**
   * An import that does not succeed leaves the slot as its last call left it if and only if the restore
   * failed or answered no numbers, restored nothing, or was to be probed without token ids, against a declared
   * count that cannot be read, or with a probe that failed or answered no numbers; or if it was not to be probed
   * and the byte count of the restore is no number. After anything else it erases the slot or restores it once more.
   */
  lemma RefusalsThatCleanUp(a: Artifact, req: Request, runtime: Runtime, codec: Container.Codec, maxTail: int, server: Server, content: bytes)
    requires Preflight(a, req, runtime, codec).None? && Container.Extracted(a.file, CHUNK, codec) == Success(content)
    ensures var report := ImportReport(a, req, runtime, codec, maxTail, server);
      report.refusal.Some? && !CleansUp(report.calls) <==> LeavesSlot(a, req, content, server)
  {
    hide Preflight, Container.Extracted, RestorePristine;
    var two := [Restore(content)] + [Completion(a.tokens)];
    PristineEnds(content, server, two);
    var (ok, after) := RestorePristine(content, server, two);
    assert RestorePristine(content, server, two) == (ok, after);
  }

  /** A header of nothing but its digest, which hashes to zeros, in front of an empty payload. */
  function EmptyFile(): (file: bytes)
    ensures |file| == 128
  {
    Container.Assemble(Container.DIGEST_KEY + Container.ZERO_DIGEST, 1, 128, [])
  }

  function EmptyCodec(): Container.Codec {
    Container.Codec(
      _ => Container.Loaded(Container.Header(
        Container.Blob(Some("opaque"), Container.Number(128), Container.Number(0), Some(Container.ZERO_DIGEST), Container.Rows([]), None),
        Some(Container.ZERO_DIGEST))),
      _ => Container.Template([], [], []), _ => [], _ => Container.ZERO_DIGEST)
  }

  /** A server that restores one token with these checkpoints whenever it is asked, and answers nothing else. */
  function RestoresOnly(checkpoint: Checkpoint): Server {
    (calls: seq<Call>) =>
      if calls != [] && calls[|calls| - 1].Restore? then Restored(Some(1), checkpoint, true) else Failed
  }

  /** The checkpoints an artifact declares, or none. */
  function DeclaredCheckpoint(a: Artifact): Checkpoint {
    if a.coverage.Some? then a.coverage.value.checkpoint else Checkpoint(None, None, None, None, None)
  }

  /**
   * Whatever the artifact and the request, as long as they get as far as a restore with a probe due: there is a server
   * with which the import fails and neither erases the slot nor restores it again. With token ids, a probe of unknown
   * effect is left behind.
   */
  lemma SlotLeftUncleaned(a: Artifact, req: Request, runtime: Runtime, codec: Container.Codec, maxTail: int, content: bytes)
    requires Preflight(a, req, runtime, codec).None? && Container.Extracted(a.file, CHUNK, codec) == Success(content) && Probes(a, req)
    ensures
      var server := RestoresOnly(DeclaredCheckpoint(a));
      var report := ImportReport(a, req, runtime, codec, maxTail, server);
      && report.refusal.Some? && !CleansUp(report.calls)
      && report == (if a.tokens == [] then Report(Some(NoTokens), [Restore(content)])
                    else Report(Some(ProbeFailed), [Restore(content), Completion(a.tokens)]))
      && (a.tokens != [] ==> Contents(server, report.calls) == Unknown)
  {
    hide Preflight, Container.Extracted, RestorePristine;
    var server := RestoresOnly(DeclaredCheckpoint(a));
    var one: seq<Call> := [Restore(content)];
    var two := one + [Completion(a.tokens)];
    assert two[|two| - 1] == Completion(a.tokens) && one[|one| - 1] == Restore(content);
    assert two == [Restore(content), Completion(a.tokens)];
    assert Answer(server, one) == Restored(Some(1), DeclaredCheckpoint(a), true);
    assert Answer(server, two) == Failed;
  }

  /** There are such artifacts. */
  lemma EmptyFileGetsThatFar()
    ensures
      var a := Artifact(EmptyFile(), "", "", "ggsq/3", None, Some(0), [7]);
      var req := Request(true, "", true);
      && Preflight(a, req, Runtime(true, "", "", Some("ggsq/3")), EmptyCodec()).None? && Probes(a, req)
      && Container.Extracted(a.file, CHUNK, EmptyCodec()) == Success([])
  {
    hide Container.VerifyHeader, Container.VerifyFile, Container.Extracted, EmptyFile, EmptyCodec;
    EmptyFileVerifies();
  }

  lemma EmptyFileVerifies()
    ensures Container.VerifyHeader(EmptyFile(), EmptyCodec()) == Container.Fine
    ensures Container.Extracted(EmptyFile(), CHUNK, EmptyCodec()) == Success([])
  {
    hide U32, Container.Assemble, ReadAt;
    var header := Container.DIGEST_KEY + Container.ZERO_DIGEST;
    ContainerRoundTrip.FrameFields(header, 1, 128, []);
    ContainerRoundTrip.HeaderPart(EmptyFile(), header);
    assert header[0..17] == Container.DIGEST_KEY;
    assert Container.DigestPlaceholder(header).Success?;
  }

  // What it takes

  /** The header verifies, or for a segmented artifact, whose header does not suffice, the whole file. */
  predicate Verifies(file: bytes, codec: Container.Codec) {
    || Container.VerifyHeader(file, codec) == Container.Fine
    || (Container.VerifyHeader(file, codec) == Container.Bad(Container.NeedsVerify) && Container.VerifyFile(file, codec) == Container.Fine)
  }

  /** Checking the artifact raises. */
  predicate VerifyingRaises(file: bytes, codec: Container.Codec) {
    || Container.VerifyHeader(file, codec) == Container.Raised
    || (Container.VerifyHeader(file, codec) == Container.Bad(Container.NeedsVerify) && Container.VerifyFile(file, codec) == Container.Raised)
  }

  /** The request can be staged, the file is sound, and the runtime can be asked. */
  predicate Asked(a: Artifact, req: Request, runtime: Runtime, codec: Container.Codec) {
    req.savePath && Verifies(a.file, codec) && runtime.supported && runtime.format.Some?
  }

  predicate SameWeights(a: Artifact, runtime: Runtime) {
    a.modelDigest == "" || a.modelDigest == runtime.modelDigest
  }

  /** The cache configuration is the one expected, which is the live one unless the request names another. */
  predicate SameAbi(a: Artifact, req: Request, runtime: Runtime) {
    || a.abiDigest == "" || a.abiDigest == req.expectedAbi
    || (req.expectedAbi == "" && (runtime.abiDigest == "" || a.abiDigest == runtime.abiDigest))
  }

  predicate SameRuntime(a: Artifact, req: Request, runtime: Runtime) {
    SameWeights(a, runtime) && SameAbi(a, req, runtime) && runtime.format == Some(a.format)
  }

  /** Blob and coverage agree on whether the artifact is compound; without a coverage it must not be. */
  predicate CoverageAgrees(a: Artifact) {
    a.format == COMPOUND_FORMAT <==> a.coverage.Some? && a.coverage.value.format == Some(COMPOUND_FORMAT)
  }

  predicate AllNumbers(c: Checkpoint) {
    c.count.Some? && c.nbytes.Some? && c.nTokens.Some? && c.posMin.Some? && c.posMax.Some?
  }

  predicate CoversSomething(c: Checkpoint) {
    AllNumbers(c) && c.count.value > 0 && c.nTokens.value > 0
  }

  predicate MayStage(a: Artifact, req: Request, runtime: Runtime, codec: Container.Codec) {
    && Asked(a, req, runtime, codec) && SameRuntime(a, req, runtime) && CoverageAgrees(a)
    && (a.format == COMPOUND_FORMAT ==> CoversSomething(a.coverage.value.checkpoint))
  }

  /**
   * When the slot is called at all, and how an import ends that does not get that far. A recorded identity that is
   * empty is not compared; everything else has to be what the artifact says.
   */
  lemma CallsExactly(a: Artifact, req: Request, runtime: Runtime, codec: Container.Codec, maxTail: int, server: Server)
    ensures
      var report := ImportReport(a, req, runtime, codec, maxTail, server);
      var content := Container.Extracted(a.file, CHUNK, codec);
      var compound := a.format == COMPOUND_FORMAT;
      var asked := Asked(a, req, runtime, codec);
      var same := asked && SameRuntime(a, req, runtime);
      && (report.calls != [] <==> MayStage(a, req, runtime, codec) && content.Success?)
      && (report == Refused(NoSavePath) <==> !req.savePath)
      && (report == Refused(FailedVerification) <==> req.savePath && !Verifies(a.file, codec) && !VerifyingRaises(a.file, codec))
      && (report == Refused(Unsupported) <==> req.savePath && Verifies(a.file, codec) && !runtime.supported)
      && (report == Refused(FormatUnknown) <==> req.savePath && Verifies(a.file, codec) && runtime.supported && runtime.format.None?)
      && (report == Refused(WrongModel) <==> asked && !SameWeights(a, runtime))
      && (report == Refused(WrongAbi) <==> asked && SameWeights(a, runtime) && !SameAbi(a, req, runtime))
      && (report == Refused(WrongFormat) <==>
            asked && SameWeights(a, runtime) && SameAbi(a, req, runtime) && runtime.format != Some(a.format))
      && (report == Refused(CoverageMissing) <==> same && compound && a.coverage.None?)
      && (report == Refused(CoverageDisagrees) <==> same && a.coverage.Some? && !CoverageAgrees(a))
      && (report == Refused(CoverageUnreadable) <==>
            same && compound && CoverageAgrees(a) && !AllNumbers(a.coverage.value.checkpoint))
      && (report == Refused(NoCoverage) <==>
            && same && compound && CoverageAgrees(a)
            && AllNumbers(a.coverage.value.checkpoint) && !CoversSomething(a.coverage.value.checkpoint))
      && (report == Refused(StagingFailed) <==>
            MayStage(a, req, runtime, codec) && content.Failure? && Container.IsContainerError(content.error))
      && (report == Refused(Raises) <==>
            || (req.savePath && VerifyingRaises(a.file, codec))
            || (MayStage(a, req, runtime, codec) && content.Failure? && !Container.IsContainerError(content.error)))
  {
    hide Container.Extracted, Container.VerifyHeader, Container.VerifyFile;
    NoCallBeforeVerification(a, req, runtime, codec, maxTail, server);
    CoverageCases(a);
  }

  function Refused(why: Refusal): Report {
    Report(Some(why), [])
  }

  lemma CoverageCases(a: Artifact)
    ensures var compound := a.format == COMPOUND_FORMAT;
      && (CheckCoverage(a).None? <==> CoverageAgrees(a) && (compound ==> CoversSomething(a.coverage.value.checkpoint)))
      && (CheckCoverage(a) == Some(CoverageMissing) <==> compound && a.coverage.None?)
      && (CheckCoverage(a) == Some(CoverageDisagrees) <==> a.coverage.Some? && !CoverageAgrees(a))
      && (CheckCoverage(a) == Some(CoverageUnreadable) <==> compound && CoverageAgrees(a) && !AllNumbers(a.coverage.value.checkpoint))
      && (CheckCoverage(a) == Some(NoCoverage) <==>
            && compound && CoverageAgrees(a)
            && AllNumbers(a.coverage.value.checkpoint) && !CoversSomething(a.coverage.value.checkpoint))
      && (CheckCoverage(a).Some? ==>
            CheckCoverage(a).value in {CoverageMissing, CoverageDisagrees, CoverageUnreadable, NoCoverage})
  {
  }

  /** The restore brought something back and, for a compound artifact, the checkpoints the artifact declares. */
  predicate CameBack(a: Artifact, restored: Reply) {
    && restored.Restored? && restored.nRestored.Some? && restored.nRestored.value > 0
    && (a.format == COMPOUND_FORMAT ==> a.coverage.Some? && a.coverage.value.checkpoint == restored.checkpoint)
  }

  predicate ProbeDue(a: Artifact, req: Request) {
    a.format == COMPOUND_FORMAT || req.verifyReuse
  }

  /** A count is declared readably, and the probe reused just that; none, or 0, declares nothing. */
  predicate AsDeclared(a: Artifact, cacheN: int) {
    if a.format == COMPOUND_FORMAT && a.coverage.Some? then a.coverage.value.checkpoint.nTokens in {Some(0), Some(cacheN)}
    else a.declares in {Some(0), Some(cacheN)}
  }

  predicate ShortTail(a: Artifact, probe: Reply, maxTail: int)
    requires probe.Completed?
  {
    probe.cacheN + probe.promptN == |a.tokens| && 1 <= probe.promptN <= maxTail
  }

  /** The probe's token is wiped and the payload restored once more. */
  predicate PutBack(server: Server, content: bytes, tokens: seq<int>) {
    && Answer(server, [Restore(content), Completion(tokens), Erase]) != Failed
    && Answer(server, [Restore(content), Completion(tokens), Erase, Restore(content)]) != Failed
  }

  function PutBackCalls(server: Server, content: bytes, tokens: seq<int>): seq<Call> {
    var probed := [Restore(content), Completion(tokens)];
    if PutBack(server, content, tokens) then probed + [Erase, Restore(content)]
    else if Answer(server, probed + [Erase]) == Failed then probed + [Erase, Erase]
    else probed + [Erase, Restore(content), Erase]
  }

  /**
   * How an import ends once the payload is staged, in terms of what the server answered: when it succeeds, each way
   * it is refused, and the calls made in either case.
   */
  lemma EndsExactly(a: Artifact, req: Request, runtime: Runtime, codec: Container.Codec, maxTail: int, server: Server, content: bytes)
    requires MayStage(a, req, runtime, codec) && Container.Extracted(a.file, CHUNK, codec) == Success(content)
    ensures
      var report := ImportReport(a, req, runtime, codec, maxTail, server);
      var restored := Answer(server, [Restore(content)]);
      var probe := Answer(server, [Restore(content), Completion(a.tokens)]);
      var due := CameBack(a, restored) && ProbeDue(a, req);
      var probed := due && a.tokens != [] && probe.Completed? && Declared(a).Some?;
      && (report.refusal.None? <==>
            && CameBack(a, restored) && restored.countsBytes
            && (due ==> probed && AsDeclared(a, probe.cacheN) && ShortTail(a, probe, maxTail) && PutBack(server, content, a.tokens)))
      && (report.refusal == Some(RestoreFailed) <==> restored == Failed)
      && (report.refusal == Some(MetadataDiffers) <==>
            && restored.Restored? && restored.nRestored.Some?
            && a.format == COMPOUND_FORMAT && a.coverage.value.checkpoint != restored.checkpoint)
      && (report.refusal == Some(NothingRestored) <==>
            && restored.Restored? && restored.nRestored.Some? && restored.nRestored.value <= 0
            && (a.format == COMPOUND_FORMAT ==> a.coverage.value.checkpoint == restored.checkpoint))
      && (report.refusal == Some(ProbeFailed) <==> due && a.tokens != [] && probe == Failed)
      && (report.refusal == Some(NoTokens) <==> due && restored.countsBytes && a.tokens == [])
      && (report.refusal == Some(ReuseNotDeclared) <==> probed && restored.countsBytes && !AsDeclared(a, probe.cacheN))
      && (report.refusal == Some(TailNotReprocessed) <==>
            probed && restored.countsBytes && AsDeclared(a, probe.cacheN) && !ShortTail(a, probe, maxTail))
      && (report.refusal == Some(PristineFailed) <==>
            && probed && restored.countsBytes && AsDeclared(a, probe.cacheN) && ShortTail(a, probe, maxTail)
            && !PutBack(server, content, a.tokens))
      && report.calls ==
           (if probed then PutBackCalls(server, content, a.tokens)
            else if due && a.tokens != [] then [Restore(content), Completion(a.tokens)]
            else if report.refusal == Some(MetadataDiffers) then [Restore(content), Erase]
            else [Restore(content)])
  {
    hide Container.Extracted, Container.VerifyHeader, Container.VerifyFile, Preflight;
    MayStageIsPreflight(a, req, runtime, codec);
    var one: seq<Call> := [Restore(content)];
    var two := one + [Completion(a.tokens)];
    assert two == [Restore(content), Completion(a.tokens)];
    assert two + [Erase] == [Restore(content), Completion(a.tokens), Erase];
    assert two + [Erase] + [Restore(content)] == [Restore(content), Completion(a.tokens), Erase, Restore(content)];
    assert two + [Erase] + [Erase] == two + [Erase, Erase];
    assert two + [Erase] + [Restore(content)] == two + [Erase, Restore(content)];
    assert two + [Erase] + [Restore(content)] + [Erase] == two + [Erase, Restore(content), Erase];
  }

  lemma MayStageIsPreflight(a: Artifact, req: Request, runtime: Runtime, codec: Container.Codec)
    ensures MayStage(a, req, runtime, codec) <==> Preflight(a, req, runtime, codec).None?
  {
    hide Container.VerifyHeader, Container.VerifyFile;
    CoverageCases(a);
  }

  /** Nothing that changes the slot is sent before the artifact has verified and its payload has been staged. */
  lemma NoCallBeforeVerification(a: Artifact, req: Request, runtime: Runtime, codec: Container.Codec, maxTail: int, server: Server)
    ensures ImportReport(a, req, runtime, codec, maxTail, server).calls != [] <==>
      Preflight(a, req, runtime, codec).None? && Container.Extracted(a.file, CHUNK, codec).Success?
    ensures ImportReport(a, req, runtime, codec, maxTail, server).calls != [] ==>
      ArtifactCheck(a.file, codec) == Container.Fine && runtime.supported && runtime.format == Some(a.format)
  {
    hide Container.Extracted, ArtifactCheck;
    if Container.Extracted(a.file, CHUNK, codec).Success? {
      var content := Container.Extracted(a.file, CHUNK, codec).value;
      PristineEnds(content, server, [Restore(content)] + [Completion(a.tokens)]);
    }
  }
}
