/** Restoring an admitted object in place: `kv_rosetta/adapters/admitted_path.py`. */
module AdmittedPath {
  import opened Wrappers
  import opened Bytes
  import opened SlotServer

  const MAX_UNCOVERED_TAIL := 8

  /** `uncovered_allowance`; None where it raises. One percent of the tokens is taken exactly. */
  function UncoveredAllowance(tokens: int, declared: Option<int>): Option<int> {
    if tokens <= 0 then None
    else if declared.Some? then
      if 0 <= declared.value <= tokens then Some(Max(MAX_UNCOVERED_TAIL, tokens - declared.value)) else None
    else Some(Max(MAX_UNCOVERED_TAIL, (tokens + 99) / 100))
  }

  /** What the manifest of a resolved object says, and whether its identities match the live runtime. */
  datatype Admitted = Admitted(
    content: bytes, abiMatches: bool, promptMatches: bool, weightsMatch: bool, checkpoint: Checkpoint)

  datatype Refusal =
    | Unsupported | NotAdmitted | WrongAbi | WrongPrompt | WrongModel
    | MetadataDiffers | CallerGone | CoverageDiffers | TailViolated | PristineFailed

  datatype Outcome = Verified(cacheN: int, promptN: int, cutShort: bool) | Refused(why: Refusal) | Raised

  datatype Report = Report(outcome: Outcome, calls: seq<Call>)

  /** Whether the caller has hung up when asked before the probe, and before the pristine restore. */
  datatype Caller = Caller(goneBeforeProbe: bool, goneBeforePristine: bool)

  function Preflight(supported: bool, resolved: Option<Admitted>): Option<Refusal> {
    if !supported then Some(Unsupported)
    else if resolved.None? then Some(NotAdmitted)
    else if !resolved.value.abiMatches then Some(WrongAbi)
    else if !resolved.value.promptMatches then Some(WrongPrompt)
    else if !resolved.value.weightsMatch then Some(WrongModel)
    else None
  }

  function RestoreReport(supported: bool, resolved: Option<Admitted>, tokens: seq<int>, caller: Caller, server: Server): Report {
    var refused := Preflight(supported, resolved);
    if refused.Some? then Report(Refused(refused.value), []) else
    var obj := resolved.value;
    var one := [Restore(obj.content)];
    var restored := Answer(server, one);
    if !restored.Restored? then Report(Raised, one)
    else if restored.checkpoint != obj.checkpoint then Report(Refused(MetadataDiffers), one + [Erase])
    else if caller.goneBeforeProbe then Report(Refused(CallerGone), one)
    else Probe(obj, tokens, caller, server, one)
  }

  function Probe(obj: Admitted, tokens: seq<int>, caller: Caller, server: Server, calls: seq<Call>): Report {
    var two := calls + [Completion(tokens)];
    var probe := Answer(server, two);
    if !probe.Completed? then Report(Raised, two) else
    var uncovered := |tokens| - probe.cacheN;
    var coverage := obj.checkpoint.nTokens;
    if coverage.None? then Report(Raised, two)
    else if probe.cacheN != coverage.value then Report(Refused(CoverageDiffers), two + [Erase]) else
    var allowance := UncoveredAllowance(|tokens|, coverage);
    if allowance.None? then Report(Raised, two)
    else if !(1 <= uncovered <= allowance.value) || probe.promptN != uncovered then Report(Refused(TailViolated), two + [Erase])
    else if caller.goneBeforePristine then Report(Verified(probe.cacheN, probe.promptN, true), two)
    else
      var erased := two + [Erase];
      var again := erased + [Restore(obj.content)];
      if Answer(server, erased) == Failed then Report(Refused(PristineFailed), erased + [Erase])
      else if Answer(server, again) == Failed then Report(Refused(PristineFailed), again + [Erase])
      else Report(Verified(probe.cacheN, probe.promptN, false), again)
  }

  method RestoreAdmitted(client: Client, supported: bool, resolved: Option<Admitted>, tokens: seq<int>, caller: Caller)
    returns (outcome: Outcome)
    requires client.calls == []
    modifies client`calls
    ensures Report(outcome, client.calls) == RestoreReport(supported, resolved, tokens, caller, client.server)
  {
    var refused := Preflight(supported, resolved);
    if refused.Some? {
      return Refused(refused.value);
    }
    var obj := resolved.value;
    var restored := client.Post(Restore(obj.content));
    assert client.calls == [Restore(obj.content)];
    if !restored.Restored? {
      return Raised;
    }
    if restored.checkpoint != obj.checkpoint {
      client.BestEffortErase();
      return Refused(MetadataDiffers);
    }
    if caller.goneBeforeProbe {
      return Refused(CallerGone);
    }
    outcome := ProbeAdmitted(client, obj, tokens, caller);
  }

  method ProbeAdmitted(client: Client, obj: Admitted, tokens: seq<int>, caller: Caller) returns (outcome: Outcome)
    modifies client`calls
    ensures Report(outcome, client.calls) == Probe(obj, tokens, caller, client.server, old(client.calls))
  {
    var probe := client.Post(Completion(tokens));
    if !probe.Completed? {
      return Raised;
    }
    var uncovered := |tokens| - probe.cacheN;
    var coverage := obj.checkpoint.nTokens;
    if coverage.None? {
      return Raised;
    }
    if probe.cacheN != coverage.value {
      client.BestEffortErase();
      return Refused(CoverageDiffers);
    }
    var allowance := UncoveredAllowance(|tokens|, coverage);
    if allowance.None? {
      return Raised;
    }
    if !(1 <= uncovered <= allowance.value) || probe.promptN != uncovered {
      client.BestEffortErase();
      return Refused(TailViolated);
    }
    if caller.goneBeforePristine {
      return Verified(probe.cacheN, probe.promptN, true);
    }
    var pristine := client.Post(Erase);
    if pristine != Failed {
      pristine := client.Post(Restore(obj.content));
    }
    if pristine == Failed {
      client.BestEffortErase();
      return Refused(PristineFailed);
    }
    return Verified(probe.cacheN, probe.promptN, false);
  }

  // What it takes

  predicate Identified(supported: bool, resolved: Option<Admitted>) {
    supported && resolved.Some? && resolved.value.abiMatches && resolved.value.promptMatches && resolved.value.weightsMatch
  }

  /** The admitted coverage is possible for the prompt and is what the probe reused; exactly the rest was reprocessed. */
  predicate CoveredExactly(obj: Admitted, tokens: seq<int>, probe: Reply)
    requires probe.Completed?
  {
    && obj.checkpoint.nTokens == Some(probe.cacheN) && 0 <= probe.cacheN < |tokens|
    && probe.cacheN + probe.promptN == |tokens|
  }

  predicate PutBack(server: Server, content: bytes, tokens: seq<int>) {
    && Answer(server, [Restore(content), Completion(tokens), Erase]) != Failed
    && Answer(server, [Restore(content), Completion(tokens), Erase, Restore(content)]) != Failed
  }

  /** A refusal before anything is sent. */
  function Untouched(why: Refusal): Report {
    Report(Refused(why), [])
  }

  /** When the slot is called at all, and which refusal is given where it is not. */
  lemma RefusesExactly(supported: bool, resolved: Option<Admitted>, tokens: seq<int>, caller: Caller, server: Server)
    ensures
      var report := RestoreReport(supported, resolved, tokens, caller, server);
      && (report.calls == [] <==> !Identified(supported, resolved))
      && (report == Untouched(Unsupported) <==> !supported)
      && (report == Untouched(NotAdmitted) <==> supported && resolved.None?)
      && (report == Untouched(WrongAbi) <==> supported && resolved.Some? && !resolved.value.abiMatches)
      && (report == Untouched(WrongPrompt) <==>
            supported && resolved.Some? && resolved.value.abiMatches && !resolved.value.promptMatches)
      && (report == Untouched(WrongModel) <==>
            supported && resolved.Some? && resolved.value.abiMatches && resolved.value.promptMatches && !resolved.value.weightsMatch)
  {
  }

  /**
   * How an admitted restore ends once the slot is called, in terms of the object, what the server answered and whether
   * the caller stayed: when it verifies, each way it is refused, when it raises, and the calls made.
   */
  lemma RestoreEndsExactly(obj: Admitted, tokens: seq<int>, caller: Caller, server: Server)
    requires Identified(true, Some(obj))
    ensures
      var report := RestoreReport(true, Some(obj), tokens, caller, server);
      var restored := Answer(server, [Restore(obj.content)]);
      var probe := Answer(server, [Restore(obj.content), Completion(tokens)]);
      var same := restored.Restored? && restored.checkpoint == obj.checkpoint;
      var probed := same && !caller.goneBeforeProbe && probe.Completed? && obj.checkpoint.nTokens.Some?;
      var reused := probed && obj.checkpoint.nTokens == Some(probe.cacheN);
      var possible := reused && tokens != [] && 0 <= probe.cacheN <= |tokens|;
      var covered := probed && CoveredExactly(obj, tokens, probe);
      && (report.outcome.Verified? <==> covered && (caller.goneBeforePristine || PutBack(server, obj.content, tokens)))
      && (report.outcome.Verified? ==>
            report.outcome == Verified(probe.cacheN, probe.promptN, caller.goneBeforePristine))
      && (report.outcome == Refused(MetadataDiffers) <==> restored.Restored? && restored.checkpoint != obj.checkpoint)
      && (report.outcome == Refused(CallerGone) <==> same && caller.goneBeforeProbe)
      && (report.outcome == Refused(CoverageDiffers) <==> probed && !reused)
      && (report.outcome == Refused(TailViolated) <==> possible && !covered)
      && (report.outcome == Refused(PristineFailed) <==>
            covered && !caller.goneBeforePristine && !PutBack(server, obj.content, tokens))
      && (report.outcome == Raised <==>
            || !restored.Restored?
            || (same && !caller.goneBeforeProbe && (!probe.Completed? || obj.checkpoint.nTokens.None? || (reused && !possible))))
      && report.calls ==
           (if !same && restored.Restored? then [Restore(obj.content), Erase]
            else if !same || caller.goneBeforeProbe then [Restore(obj.content)]
            else if !covered && probed && (possible || !reused) then [Restore(obj.content), Completion(tokens), Erase]
            else if !covered || caller.goneBeforePristine then [Restore(obj.content), Completion(tokens)]
            else if PutBack(server, obj.content, tokens) then [Restore(obj.content), Completion(tokens), Erase, Restore(obj.content)]
            else if Answer(server, [Restore(obj.content), Completion(tokens), Erase]) == Failed
            then [Restore(obj.content), Completion(tokens), Erase, Erase]
            else [Restore(obj.content), Completion(tokens), Erase, Restore(obj.content), Erase])
  {
    var content := obj.content;
    var one: seq<Call> := [Restore(content)];
    var two := one + [Completion(tokens)];
    assert two == [Restore(content), Completion(tokens)];
    assert one + [Erase] == [Restore(content), Erase];
    assert two + [Erase] == [Restore(content), Completion(tokens), Erase];
    assert two + [Erase] + [Restore(content)] == [Restore(content), Completion(tokens), Erase, Restore(content)];
    assert two + [Erase] + [Erase] == [Restore(content), Completion(tokens), Erase, Erase];
    assert two + [Erase] + [Restore(content)] + [Erase] == [Restore(content), Completion(tokens), Erase, Restore(content), Erase];
  }

  // Properties

  /**
   * A verified restore reused exactly the declared coverage and reprocessed exactly the rest. The
   * slot then holds the admitted bytes alone, except when the caller was gone after the probe:
   * then it holds them and the probe's one token, and nothing else can make it so.
   */
  lemma VerifiedHolds(supported: bool, resolved: Option<Admitted>, tokens: seq<int>, caller: Caller, server: Server)
    requires RestoreReport(supported, resolved, tokens, caller, server).outcome.Verified?
    ensures var report := RestoreReport(supported, resolved, tokens, caller, server);
      && resolved.Some? && report.outcome.cutShort == caller.goneBeforePristine
      && resolved.value.checkpoint.nTokens == Some(report.outcome.cacheN)
      && report.outcome.cacheN + report.outcome.promptN == |tokens| && report.outcome.promptN >= 1
      && ProbeCompleted(report.calls, server, tokens)
      && Contents(server, report.calls)
         == (if caller.goneBeforePristine then WithProbeToken(resolved.value.content) else Exactly(resolved.value.content))
      && (!caller.goneBeforePristine ==> EndsInRestore(server, report.calls, resolved.value.content))
  {
    var content := resolved.value.content;
    var two := [Restore(content)] + [Completion(tokens)];
    var calls := RestoreReport(supported, resolved, tokens, caller, server).calls;
    assert calls[..2] == two;
    assert two[..1] == [Restore(content)];
    assert Contents(server, [Restore(content)]) == Exactly(content);
    assert Contents(server, two) == WithProbeToken(content);
  }

  /** A refusal after a completed probe ends in an attempt to erase the slot. */
  lemma RefusalAfterProbeErases(supported: bool, resolved: Option<Admitted>, tokens: seq<int>, caller: Caller, server: Server)
    requires RestoreReport(supported, resolved, tokens, caller, server).outcome.Refused?
    requires ProbeCompleted(RestoreReport(supported, resolved, tokens, caller, server).calls, server, tokens)
    ensures EndsInErase(RestoreReport(supported, resolved, tokens, caller, server).calls)
  {
  }

  /**
   * How the probe's token stays behind unreported: no coverage is declared, or the answer agrees with a
   * declared one that is impossible, and reading it or computing the allowance raises before anything is erased.
   */
  lemma RaisesAfterProbeExactly(supported: bool, resolved: Option<Admitted>, tokens: seq<int>, caller: Caller, server: Server)
    requires ProbeCompleted(RestoreReport(supported, resolved, tokens, caller, server).calls, server, tokens)
    ensures var report := RestoreReport(supported, resolved, tokens, caller, server);
      report.outcome.Raised? <==>
        && resolved.Some?
        && var coverage := resolved.value.checkpoint.nTokens;
           (coverage.Some? ==>
             && Answer(server, report.calls[..2]).cacheN == coverage.value
             && (tokens == [] || coverage.value < 0 || coverage.value > |tokens|))
  {
    var report := RestoreReport(supported, resolved, tokens, caller, server);
    if resolved.Some? {
      var two := [Restore(resolved.value.content)] + [Completion(tokens)];
      if |report.calls| >= 2 && report.calls[1] == Completion(tokens) {
        assert report.calls[..2] == two;
      }
    }
  }

  /**
   * Once reuse equals the declared coverage the upper bound on the tail can never bind: whatever is
   * left uncovered is within the allowance, so the tail test only asks for at least one token and
   * for an honest count. Without a declared coverage it can: the allowance is then the least number
   * from the fixed tail on that is at least a hundredth of the tokens.
   */
  lemma AllowanceNeverBinds(tokens: int, coverage: int)
    ensures UncoveredAllowance(tokens, Some(coverage)).Some? <==> tokens > 0 && 0 <= coverage <= tokens
    ensures UncoveredAllowance(tokens, None).Some? <==> tokens > 0
    ensures tokens > 0 && 0 <= coverage <= tokens ==> tokens - coverage <= UncoveredAllowance(tokens, Some(coverage)).value
    ensures tokens > 0 ==> IsLeastAllowance(UncoveredAllowance(tokens, None).value, tokens)
  {
  }

  predicate IsLeastAllowance(a: int, tokens: int) {
    && a >= MAX_UNCOVERED_TAIL && 100 * a >= tokens
    && (a == MAX_UNCOVERED_TAIL || 100 * (a - 1) < tokens)
  }
}
