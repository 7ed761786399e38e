/**
 * The capture daemon: `kv_rosetta/daemon/capture.py`.
 *
 * One tick reads what is loaded, restores into idle empty slots, then saves slots worth saving.
 * Everything the runtime, the restorer and the admitter answer is an input of the tick. Growth
 * thresholds are exact fractions: 0.5 is one half and 1.0 + 0.20 is six fifths.
 */
module CaptureLoop {
  import opened Wrappers
  import opened Sorting

  type Key = (string, int) // a model and a slot, or a model and a token count

  /**
   * A slot as polled. A broken one raises as soon as its count is read, or its id along with a positive count; of any
   * other the id may be missing, which raises where it is needed.
   */
  datatype Slot = Broken(busy: bool) | Slot(id: Option<int>, tokens: int, busy: bool)

  /** One loaded model and the answer of its slot endpoint; an unreachable one answers nothing. */
  datatype Poll = Poll(model: string, slots: seq<Slot>)

  datatype Candidate = Candidate(model: string, slot: int, tokens: int)

  /** What a restore says it covers, if it says so readably. */
  datatype Covers = Unsaid | Unreadable | Tokens(count: int)

  datatype RestoreReply = RestoreRaises | NoMatch | Restores(covers: Covers)
  datatype AdmitReply = AdmitRaises | AdmitsNothing | Admits

  /** An unreadable answer to a save that took place makes the tick raise after it has been recorded. */
  datatype SaveReply = TimesOut | SaveRaises | SavesUnreadably | Saves(admit: AdmitReply)

  /** What the world answers during one tick, if the list of loaded models can be had at all; `save` is asked for the k-th candidate. */
  datatype Input = Input(reachable: bool, polls: seq<Poll>, restore: string -> RestoreReply, save: nat -> SaveReply)

  datatype Config = Config(minTokens: int, restorer: bool, admitter: bool)

  datatype Loop = Loop(
    seen: set<Key>,
    warmed: set<Key>,
    refusedFor: set<Key>,
    capturedOn: map<Key, int>,
    previous: set<string>,
    captured: nat,
    refused: nat,
    parked: nat,
    restored: nat,
    restoreRefused: nat,
    admitted: nat,
    admitRefused: nat,
    skipped: nat)

  datatype Event =
    | RestoreOk(model: string, slot: int)
    | RestoreRefused(model: string, slot: int)
    | RestoreNone(model: string, slot: int)
    | Skipped(model: string, slot: int, tokens: int)
    | Parked(model: string, slot: int, tokens: int)
    | SaveRefused(model: string, slot: int, tokens: int)
    | Saved(model: string, slot: int, tokens: int, admitted: bool)

  datatype Ticked = Ticked(loop: Loop, events: seq<Event>, aborted: bool)

  const STARTED: Loop := Loop({}, {}, {}, map[], {}, 0, 0, 0, 0, 0, 0, 0, 0)

  // Deciding

  predicate IdleAndEmpty(slot: Slot) {
    slot.Slot? && !slot.busy && slot.tokens == 0
  }

  /** A slot the search for an idle empty one does not pass by. */
  predicate Stops(slot: Slot) {
    IdleAndEmpty(slot) || (slot.Broken? && !slot.busy)
  }

  predicate FirstIdle(slots: seq<Slot>, i: int) {
    0 <= i < |slots| && Stops(slots[i]) && forall j :: 0 <= j < i ==> !Stops(slots[j])
  }

  datatype Found = Raises | Nothing | At(slot: int)

  function FoundIn(slot: Slot): Found
    requires Stops(slot)
  {
    if slot.Slot? && slot.id.Some? then At(slot.id.value) else Raises
  }

  /** `restorable`: the first slot that is idle and empty. */
  function Restorable(slots: seq<Slot>): (found: Found)
    ensures found.Nothing? ==> forall i :: 0 <= i < |slots| ==> !Stops(slots[i])
    ensures !found.Nothing? ==> exists i :: FirstIdle(slots, i) && found == FoundIn(slots[i])
  {
    if slots == [] then Nothing
    else if Stops(slots[0]) then
      assert FirstIdle(slots, 0);
      FoundIn(slots[0])
    else
      var rest := Restorable(slots[1..]);
      assert !rest.Nothing? ==> exists i :: FirstIdle(slots, i) && rest == FoundIn(slots[i]) by {
        if !rest.Nothing? {
          var i :| FirstIdle(slots[1..], i) && rest == FoundIn(slots[1..][i]);
          assert forall j :: 0 < j <= i ==> slots[j] == slots[1..][j - 1];
          assert FirstIdle(slots, i + 1);
        }
      }
      rest
  }

  /** `worth_capturing`; None where it raises. */
  function WorthCapturing(tokens: int, previous: int): Option<bool> {
    if tokens <= 0 then None
    else if previous <= 0 then Some(true)
    else if 2 * tokens < previous then Some(true)
    else Some(5 * tokens >= 6 * previous)
  }

  function SlotHistory(loop: Loop, model: string, slot: int): int {
    if (model, slot) in loop.capturedOn then loop.capturedOn[(model, slot)] else 0
  }

  predicate Capturable(slot: Slot, minTokens: int) {
    slot.Slot? && !slot.busy && slot.tokens >= minTokens
  }

  /** The candidates of one model; None where a slot raises. */
  function SlotCandidates(model: string, slots: seq<Slot>, minTokens: int, already: set<Key>): Option<seq<Candidate>> {
    if slots == [] then Some([])
    else if slots[0].Broken? && !slots[0].busy then None
    else if !Capturable(slots[0], minTokens) || (model, slots[0].tokens) in already
    then SlotCandidates(model, slots[1..], minTokens, already)
    else
      var rest := SlotCandidates(model, slots[1..], minTokens, already);
      if slots[0].id.None? || rest.None? then None
      else Some([Candidate(model, slots[0].id.value, slots[0].tokens)] + rest.value)
  }

  function AllCandidates(polls: seq<Poll>, minTokens: int, already: set<Key>): Option<seq<Candidate>> {
    if polls == [] then Some([]) else
    var first := SlotCandidates(polls[0].model, polls[0].slots, minTokens, already);
    var rest := AllCandidates(polls[1..], minTokens, already);
    if first.None? || rest.None? then None else Some(first.value + rest.value)
  }

  predicate BiggestFirst(a: Candidate, b: Candidate) {
    a.tokens >= b.tokens
  }

  /** `choose_candidates` */
  function ChooseCandidates(polls: seq<Poll>, minTokens: int, already: set<Key>): Option<seq<Candidate>> {
    var all := AllCandidates(polls, minTokens, already);
    if all.None? then None else Some(Sorted(all.value, BiggestFirst))
  }

  function Loaded(polls: seq<Poll>): set<string> {
    set i | 0 <= i < |polls| :: polls[i].model
  }

  /** `require_loaded_only` */
  function LoadedOnly(candidates: seq<Candidate>, loaded: set<string>): seq<Candidate> {
    if candidates == [] then [] else
    (if candidates[0].model in loaded then [candidates[0]] else []) + LoadedOnly(candidates[1..], loaded)
  }

  // One tick

  /** The id a slot is forgotten under. */
  function Named(slot: Slot): int
    requires slot.Slot?
  {
    if slot.id.None? then -1 else slot.id.value
  }

  /** What is left of the warmed slots, and whether a slot raised. */
  function Discarded(warmed: set<Key>, model: string, slots: seq<Slot>): (set<Key>, bool) {
    if slots == [] then (warmed, false)
    else if slots[0].Broken? then (warmed, true)
    else Discarded(if slots[0].tokens > 0 then warmed - {(model, Named(slots[0]))} else warmed, model, slots[1..])
  }

  /** Slots seen holding something are no longer counted as warmed by us. */
  function StillWarmed(warmed: set<Key>, polls: seq<Poll>): (set<Key>, bool)
    decreases |polls|
  {
    if polls == [] then (warmed, false) else
    var (left, raised) := Discarded(warmed, polls[0].model, polls[0].slots);
    if raised then (left, true) else StillWarmed(left, polls[1..])
  }

  /** One round of the loop in `restore_fresh`, and whether it raises. */
  function RestoreOne(loop: Loop, poll: Poll, reply: RestoreReply): Ticked {
    match Restorable(poll.slots)
    case Raises => Ticked(loop, [], true)
    case Nothing => Ticked(loop, [], false)
    case At(slot) =>
      var key := (poll.model, slot);
      if key in loop.warmed || key in loop.refusedFor then Ticked(loop, [], false) else
      match reply
      case RestoreRaises =>
        Ticked(loop.(restoreRefused := loop.restoreRefused + 1, refusedFor := loop.refusedFor + {key}), [RestoreRefused(poll.model, slot)], false)
      case NoMatch => Ticked(loop, [RestoreNone(poll.model, slot)], false)
      case Restores(covers) =>
        var known := if covers.Tokens? && covers.count != 0 then {(poll.model, covers.count)} else {};
        Ticked(loop.(restored := loop.restored + 1, warmed := loop.warmed + {key}, seen := loop.seen + known),
               [RestoreOk(poll.model, slot)], covers.Unreadable?)
  }

  function RestoreFresh(loop: Loop, polls: seq<Poll>, restore: string -> RestoreReply, events: seq<Event>): Ticked
    decreases |polls|
  {
    if polls == [] then Ticked(loop, events, false) else
    var one := RestoreOne(loop, polls[0], restore(polls[0].model));
    if one.aborted then Ticked(one.loop, events + one.events, true)
    else RestoreFresh(one.loop, polls[1..], restore, events + one.events)
  }

  /** One round of the saving loop; None where `worth_capturing` raises. */
  function CaptureOne(loop: Loop, c: Candidate, reply: SaveReply, admitter: bool): Option<(Loop, Event)> {
    var worth := WorthCapturing(c.tokens, SlotHistory(loop, c.model, c.slot));
    var seen := loop.seen + {(c.model, c.tokens)};
    if worth.None? then None
    else if !worth.value then Some((loop.(skipped := loop.skipped + 1, seen := seen), Skipped(c.model, c.slot, c.tokens)))
    else match reply
      case TimesOut => Some((loop.(refused := loop.refused + 1, parked := loop.parked + 1, seen := seen), Parked(c.model, c.slot, c.tokens)))
      case SaveRaises => Some((loop.(refused := loop.refused + 1), SaveRefused(c.model, c.slot, c.tokens)))
      case SavesUnreadably => Some((Recorded(loop, c), Saved(c.model, c.slot, c.tokens, false)))
      case Saves(admit) =>
        Some((AfterAdmit(Recorded(loop, c), c.model, admitter, admit), Saved(c.model, c.slot, c.tokens, admitter && admit.Admits?)))
  }

  /** What is remembered of a save. */
  function Recorded(loop: Loop, c: Candidate): Loop {
    loop.(seen := loop.seen + {(c.model, c.tokens)}, capturedOn := loop.capturedOn[(c.model, c.slot) := c.tokens], captured := loop.captured + 1)
  }

  /** What the admitter's answer changes; a new attachment lets refused restores be tried again. */
  function AfterAdmit(loop: Loop, model: string, admitter: bool, admit: AdmitReply): Loop {
    if !admitter then loop else
    match admit
    case AdmitRaises => loop.(admitRefused := loop.admitRefused + 1)
    case AdmitsNothing => loop
    case Admits => loop.(admitted := loop.admitted + 1, refusedFor := OtherModels(loop.refusedFor, model))
  }

  function OtherModels(keys: set<Key>, model: string): set<Key> {
    set key | key in keys && key.0 != model
  }

  function CaptureAll(loop: Loop, candidates: seq<Candidate>, k: nat, save: nat -> SaveReply, admitter: bool, events: seq<Event>): Ticked
    requires k <= |candidates|
    decreases |candidates| - k
  {
    if k == |candidates| then Ticked(loop, events, false) else
    var next := CaptureOne(loop, candidates[k], save(k), admitter);
    if next.None? then Ticked(loop, events, true)
    else if next.value.1.Saved? && save(k).SavesUnreadably? then Ticked(next.value.0, events + [next.value.1], true)
    else CaptureAll(next.value.0, candidates, k + 1, save, admitter, events + [next.value.1])
  }

  /** The part of a tick before anything is saved. */
  function Restored(loop: Loop, input: Input, config: Config): Ticked {
    if !input.reachable then Ticked(loop, [], true) else
    var (warmed, raised) := StillWarmed(loop.warmed, input.polls);
    var cleared := loop.(warmed := warmed);
    if raised then Ticked(cleared, [], true) else
    var t := if config.restorer then RestoreFresh(cleared, input.polls, input.restore, []) else Ticked(cleared, [], false);
    if t.aborted then t else Ticked(t.loop.(previous := Loaded(input.polls)), t.events, false)
  }

  /** None where choosing the candidates raises. */
  function ToCapture(loop: Loop, input: Input, config: Config): Option<seq<Candidate>> {
    var chosen := ChooseCandidates(input.polls, config.minTokens, loop.seen);
    if chosen.None? then None else Some(LoadedOnly(chosen.value, Loaded(input.polls)))
  }

  /** `tick` */
  function Tick(loop: Loop, input: Input, config: Config): Ticked {
    var ready := Restored(loop, input, config);
    if ready.aborted then ready else
    var candidates := ToCapture(ready.loop, input, config);
    if candidates.None? then Ticked(ready.loop, ready.events, true)
    else CaptureAll(ready.loop, candidates.value, 0, input.save, config.admitter, ready.events)
  }

  class Daemon {
    const config: Config
    var seen: set<Key>
    var warmed: set<Key>
    var refusedFor: set<Key>
    var capturedOn: map<Key, int>
    var previous: set<string>
    var captured: nat
    var refused: nat
    var parked: nat
    var restored: nat
    var restoreRefused: nat
    var admitted: nat
    var admitRefused: nat
    var skipped: nat

    function State(): Loop
      reads this
    {
      Loop(seen, warmed, refusedFor, capturedOn, previous, captured, refused, parked, restored, restoreRefused,
           admitted, admitRefused, skipped)
    }

    constructor (config: Config)
      ensures this.config == config && State() == STARTED
    {
      this.config := config;
      seen, warmed, refusedFor, capturedOn, previous := {}, {}, {}, map[], {};
      captured, refused, parked, restored, restoreRefused := 0, 0, 0, 0, 0;
      admitted, admitRefused, skipped := 0, 0, 0;
    }

    method ForgetWarmed(polls: seq<Poll>) returns (raised: bool)
      modifies this`warmed
      ensures (warmed, raised) == StillWarmed(old(warmed), polls)
    {
      var i: nat := 0;
      while i < |polls|
        invariant i <= |polls|
        invariant StillWarmed(warmed, polls[i..]) == StillWarmed(old(warmed), polls)
      {
        var slots := polls[i].slots;
        ghost var before := warmed;
        var j: nat := 0;
        while j < |slots|
          invariant j <= |slots|
          invariant Discarded(warmed, polls[i].model, slots[j..]) == Discarded(before, polls[i].model, slots)
        {
          assert slots[j..][1..] == slots[j + 1..];
          if slots[j].Broken? {
            return true;
          }
          if slots[j].tokens > 0 {
            warmed := warmed - {(polls[i].model, Named(slots[j]))};
          }
          j := j + 1;
        }
        assert polls[i..][1..] == polls[i + 1..];
        i := i + 1;
      }
      return false;
    }

    method RestoreFreshSlots(polls: seq<Poll>, restore: string -> RestoreReply) returns (raised: bool, ghost events: seq<Event>)
      modifies this`seen, this`warmed, this`refusedFor, this`restored, this`restoreRefused
      ensures Ticked(State(), events, raised) == RestoreFresh(old(State()), polls, restore, [])
    {
      hide RestoreOne;
      events := [];
      var i: nat := 0;
      while i < |polls|
        invariant i <= |polls|
        invariant RestoreFresh(State(), polls[i..], restore, events) == RestoreFresh(old(State()), polls, restore, [])
      {
        assert polls[i..][0] == polls[i] && polls[i..][1..] == polls[i + 1..];
        ghost var more: seq<Event>;
        raised, more := RestoreModel(polls[i], restore(polls[i].model));
        events := events + more;
        if raised {
          return;
        }
        i := i + 1;
      }
      return false, events;
    }

    method RestoreModel(poll: Poll, info: RestoreReply) returns (raised: bool, ghost events: seq<Event>)
      modifies this`seen, this`warmed, this`refusedFor, this`restored, this`restoreRefused
      ensures Ticked(State(), events, raised) == RestoreOne(old(State()), poll, info)
    {
      hide Restorable;
      var found := Restorable(poll.slots);
      if !found.At? || (poll.model, found.slot) in warmed || (poll.model, found.slot) in refusedFor {
        return found.Raises?, [];
      }
      var slot := found.slot;
      if info.RestoreRaises? {
        restoreRefused := restoreRefused + 1;
        refusedFor := refusedFor + {(poll.model, slot)};
        return false, [RestoreRefused(poll.model, slot)];
      }
      if info.NoMatch? {
        return false, [RestoreNone(poll.model, slot)];
      }
      restored := restored + 1;
      warmed := warmed + {(poll.model, slot)};
      if info.covers.Tokens? && info.covers.count != 0 {
        seen := seen + {(poll.model, info.covers.count)};
      }
      return info.covers.Unreadable?, [RestoreOk(poll.model, slot)];
    }

    method CaptureWorthwhile(candidates: seq<Candidate>, save: nat -> SaveReply, ghost soFar: seq<Event>)
      returns (aborted: bool, ghost events: seq<Event>)
      modifies this`seen, this`refusedFor, this`capturedOn, this`captured, this`refused, this`parked, this`admitted,
               this`admitRefused, this`skipped
      ensures Ticked(State(), events, aborted) == CaptureAll(old(State()), candidates, 0, save, config.admitter, soFar)
    {
      events := soFar;
      var k: nat := 0;
      while k < |candidates|
        invariant k <= |candidates|
        invariant CaptureAll(State(), candidates, k, save, config.admitter, events)
               == CaptureAll(old(State()), candidates, 0, save, config.admitter, soFar)
      {
        var bad: bool;
        var saved: bool;
        ghost var event: Event;
        bad, saved, event := CaptureCandidate(candidates[k], save(k));
        if bad {
          return true, events;
        }
        events := events + [event];
        if saved && save(k).SavesUnreadably? {
          return true, events;
        }
        k := k + 1;
      }
      return false, events;
    }

    method CaptureCandidate(c: Candidate, reply: SaveReply) returns (raised: bool, saved: bool, ghost event: Event)
      modifies this`seen, this`refusedFor, this`capturedOn, this`captured, this`refused, this`parked, this`admitted,
               this`admitRefused, this`skipped
      ensures raised == CaptureOne(old(State()), c, reply, config.admitter).None?
      ensures raised ==> State() == old(State())
      ensures !raised ==> CaptureOne(old(State()), c, reply, config.admitter) == Some((State(), event)) && saved == event.Saved?
    {
      hide WorthCapturing, AfterAdmit;
      raised, saved := false, false;
      event := Skipped(c.model, c.slot, c.tokens);
      var history := if (c.model, c.slot) in capturedOn then capturedOn[(c.model, c.slot)] else 0;
      var worth := WorthCapturing(c.tokens, history);
      if worth.None? {
        return true, false, event;
      }
      if !worth.value {
        skipped := skipped + 1;
        seen := seen + {(c.model, c.tokens)};
        return;
      }
      if reply.TimesOut? || reply.SaveRaises? {
        refused := refused + 1;
        event := SaveRefused(c.model, c.slot, c.tokens);
        if reply.TimesOut? {
          parked := parked + 1;
          seen := seen + {(c.model, c.tokens)};
          event := Parked(c.model, c.slot, c.tokens);
        }
        return;
      }
      seen := seen + {(c.model, c.tokens)};
      capturedOn := capturedOn[(c.model, c.slot) := c.tokens];
      captured := captured + 1;
      saved := true;
      event := Saved(c.model, c.slot, c.tokens, false);
      if reply.Saves? {
        event := Saved(c.model, c.slot, c.tokens, config.admitter && reply.admit.Admits?);
        Admit(c.model, reply.admit);
      }
    }

    method Admit(model: string, reply: AdmitReply)
      modifies this`refusedFor, this`admitted, this`admitRefused
      ensures State() == AfterAdmit(old(State()), model, config.admitter, reply)
    {
      if config.admitter {
        if reply.AdmitRaises? {
          admitRefused := admitRefused + 1;
        } else if reply.Admits? {
          admitted := admitted + 1;
          refusedFor := OtherModels(refusedFor, model);
        }
      }
    }

    method RunTick(input: Input) returns (aborted: bool, ghost events: seq<Event>)
      modifies this
      ensures Ticked(State(), events, aborted) == Tick(old(State()), input, config)
    {
      hide StillWarmed, RestoreFresh, ChooseCandidates, LoadedOnly, CaptureAll;
      if !input.reachable {
        return true, [];
      }
      aborted := ForgetWarmed(input.polls);
      events := [];
      if aborted {
        return;
      }
      if config.restorer {
        aborted, events := RestoreFreshSlots(input.polls, input.restore);
        if aborted {
          return;
        }
      }
      previous := Loaded(input.polls);
      ghost var ready := State();
      assert Ticked(ready, events, false) == Restored(old(State()), input, config);
      var chosen := ChooseCandidates(input.polls, config.minTokens, seen);
      if chosen.None? {
        return true, events;
      }
      aborted, events := CaptureWorthwhile(LoadedOnly(chosen.value, Loaded(input.polls)), input.save, events);
    }
  }
}
