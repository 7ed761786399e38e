/**
 * The runtime's slot as its clients see it: three calls, each of which may fail. What a call
 * answers may depend on every call before it; nothing else is assumed about the server.
 */
module SlotServer {
  import opened Wrappers
  import opened Bytes

  datatype Call = Restore(content: bytes) | Erase | Completion(prompt: seq<int>)

  /** The five checkpoint fields of a save or restore response, or of a manifest; None when absent. */
  datatype Checkpoint = Checkpoint(
    count: Option<int>, nbytes: Option<int>, nTokens: Option<int>, posMin: Option<int>, posMax: Option<int>)

  /**
   * A garbled answer arrived, but cannot be used at all. The count of a restore is None where it is no number, and its byte
   * count is only ever repeated in a report, which raises where it is no number either.
   */
  datatype Reply =
    | Failed
    | Garbled
    | Restored(nRestored: Option<int>, checkpoint: Checkpoint, countsBytes: bool)
    | Erased
    | Completed(cacheN: int, promptN: int)

  /** The answer to the last call of a history; an answer of the wrong kind does not parse. */
  type Server = seq<Call> -> Reply

  function Answer(server: Server, calls: seq<Call>): Reply
    requires calls != []
  {
    var reply := server(calls);
    match calls[|calls| - 1]
    case Restore(_) => if reply.Restored? || reply.Garbled? then reply else Failed
    case Erase => if reply.Failed? then Failed else Erased
    case Completion(_) => if reply.Completed? || reply.Garbled? then reply else Failed
  }

  predicate Succeeds(server: Server, calls: seq<Call>) {
    calls != [] && Answer(server, calls) != Failed
  }

  /** What is known to be in the slot: a failed call may or may not have taken effect. */
  datatype Held = Unknown | Nothing | Exactly(content: bytes) | WithProbeToken(content: bytes)

  function Contents(server: Server, calls: seq<Call>): Held {
    if calls == [] then Unknown
    else if Answer(server, calls) == Failed then Unknown
    else
      match calls[|calls| - 1]
      case Restore(content) => Exactly(content)
      case Erase => Nothing
      case Completion(_) =>
        var before := Contents(server, calls[..|calls| - 1]);
        if before.Exactly? then WithProbeToken(before.content) else Unknown
  }

  /** The second call was the probe, and its answer can be read. */
  predicate ProbeCompleted(calls: seq<Call>, server: Server, tokens: seq<int>) {
    |calls| >= 2 && calls[1] == Completion(tokens) && Answer(server, calls[..2]).Completed?
  }

  predicate EndsInErase(calls: seq<Call>) {
    calls != [] && calls[|calls| - 1] == Erase
  }

  /** The last call that reached the slot put exactly this content there. */
  predicate EndsInRestore(server: Server, calls: seq<Call>, content: bytes) {
    Succeeds(server, calls) && calls[|calls| - 1] == Restore(content)
  }

  /** A client of one slot, with its record of calls. */
  class Client {
    const server: Server
    var calls: seq<Call>

    constructor (server: Server)
      ensures this.server == server && calls == []
    {
      this.server := server;
      this.calls := [];
    }

    method Post(call: Call) returns (reply: Reply)
      modifies this`calls
      ensures calls == old(calls) + [call]
      ensures reply == Answer(server, calls)
    {
      calls := calls + [call];
      reply := Answer(server, calls);
    }

    /** `_erase`: best effort, its failure is swallowed. */
    method BestEffortErase()
      modifies this`calls
      ensures calls == old(calls) + [Erase]
    {
      var _ := Post(Erase);
    }
  }
}
