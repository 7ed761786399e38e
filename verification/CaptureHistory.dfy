/** What any run of the capture daemon keeps, whatever the runtime answers. */
module CaptureHistory {
  import opened Wrappers
  import opened Sorting
  import opened CaptureLoop

  // Runs

  /** The state before tick n of a run. */
  function Before(loop: Loop, inputs: seq<Input>, config: Config, n: nat): Loop
    requires n <= |inputs|
  {
    if n == 0 then loop else Tick(Before(loop, inputs, config, n - 1), inputs[n - 1], config).loop
  }

  function EventsOf(loop: Loop, inputs: seq<Input>, config: Config, n: nat): seq<Event>
    requires n < |inputs|
  {
    Tick(Before(loop, inputs, config, n), inputs[n], config).events
  }

  predicate HoldsSomething(slot: Slot, id: int) {
    slot.Slot? && Named(slot) == id && slot.tokens > 0
  }

  /** Some poll of this tick saw the slot holding something. */
  ghost predicate PolledFull(input: Input, model: string, slot: int) {
    && input.reachable
    && exists p, i ::
         && 0 <= p < |input.polls| && input.polls[p].model == model && 0 <= i < |input.polls[p].slots|
         && HoldsSomething(input.polls[p].slots[i], slot)
  }

  predicate Attempts(e: Event, model: string, slot: int) {
    e == RestoreOk(model, slot) || e == RestoreRefused(model, slot) || e == RestoreNone(model, slot)
  }

  // What a tick does to each set

  lemma {:induction false} DiscardedOnlyFull(warmed: set<Key>, model: string, slots: seq<Slot>, name: string, id: int)
    requires (name, id) in warmed
    requires forall i :: 0 <= i < |slots| ==> !(model == name && HoldsSomething(slots[i], id))
    ensures (name, id) in Discarded(warmed, model, slots).0
    decreases |slots|
  {
    if slots != [] && slots[0].Slot? {
      var tail := slots[1..];
      assert forall i :: 0 <= i < |tail| ==> tail[i] == slots[i + 1];
      DiscardedOnlyFull(if slots[0].tokens > 0 then warmed - {(model, Named(slots[0]))} else warmed, model, tail, name, id);
    }
  }

  lemma {:induction false} StillWarmedUnlessFull(warmed: set<Key>, polls: seq<Poll>, model: string, slot: int)
    requires (model, slot) in warmed
    requires forall p, i :: 0 <= p < |polls| && 0 <= i < |polls[p].slots| ==>
      !(polls[p].model == model && HoldsSomething(polls[p].slots[i], slot))
    ensures (model, slot) in StillWarmed(warmed, polls).0
    decreases |polls|
  {
    hide HoldsSomething, Discarded;
    if polls != [] {
      DiscardedOnlyFull(warmed, polls[0].model, polls[0].slots, model, slot);
      var (left, raised) := Discarded(warmed, polls[0].model, polls[0].slots);
      assert Discarded(warmed, polls[0].model, polls[0].slots) == (left, raised);
      if !raised {
        StillWarmedUnlessFull(left, polls[1..], model, slot);
      }
    }
  }

  /** A restore into an idle empty slot of a polled model that is neither warmed nor refused. */
  ghost predicate RestoreEvent(e: Event, from: Loop, to: Loop, polls: seq<Poll>) {
    && (e.RestoreOk? || e.RestoreRefused? || e.RestoreNone?)
    && (e.model, e.slot) !in from.warmed && (e.model, e.slot) !in from.refusedFor
    && (e.RestoreOk? ==> (e.model, e.slot) in to.warmed)
    && (e.RestoreRefused? ==> (e.model, e.slot) in to.refusedFor)
    && exists p, i :: 0 <= p < |polls| && polls[p].model == e.model && 0 <= i < |polls[p].slots|
         && polls[p].slots[i] == Slot(Some(e.slot), 0, false)
  }

  predicate RestoreGrows(from: Loop, to: Loop) {
    && from.warmed <= to.warmed && from.refusedFor <= to.refusedFor && from.seen <= to.seen
    && from.capturedOn == to.capturedOn
  }

  lemma RestoreOneEvents(loop: Loop, poll: Poll, reply: RestoreReply, polls: seq<Poll>, p: nat)
    requires p < |polls| && polls[p] == poll
    ensures var one := RestoreOne(loop, poll, reply);
      RestoreGrows(loop, one.loop) && forall e :: e in one.events ==> RestoreEvent(e, loop, one.loop, polls)
  {
    var found := Restorable(poll.slots);
    if found.At? {
      var i :| FirstIdle(poll.slots, i) && found == FoundIn(poll.slots[i]);
      assert polls[p].slots[i] == Slot(Some(found.slot), 0, false);
    }
  }

  lemma {:induction false} RestoreFreshEvents(loop: Loop, polls: seq<Poll>, restore: string -> RestoreReply, events: seq<Event>, done: nat, all: seq<Poll>)
    requires done <= |all| && polls == all[done..]
    ensures var t := RestoreFresh(loop, polls, restore, events);
      RestoreGrows(loop, t.loop) && forall e :: e in t.events ==> e in events || RestoreEvent(e, loop, t.loop, all)
    decreases |polls|
  {
    hide RestoreOne, RestoreEvent;
    if polls != [] {
      var one := RestoreOne(loop, polls[0], restore(polls[0].model));
      RestoreOneEvents(loop, polls[0], restore(polls[0].model), all, done);
      if !one.aborted {
        RestoreFreshEvents(one.loop, polls[1..], restore, events + one.events, done + 1, all);
      }
      var t := RestoreFresh(loop, polls, restore, events);
      forall e | e in t.events && e !in events
        ensures RestoreEvent(e, loop, t.loop, all)
      {
        if e in one.events {
          RestoreEventWidens(e, loop, one.loop, loop, t.loop, all);
        } else {
          RestoreEventWidens(e, one.loop, t.loop, loop, t.loop, all);
        }
      }
    }
  }

  lemma RestoreEventWidens(e: Event, from: Loop, to: Loop, earlier: Loop, later: Loop, polls: seq<Poll>)
    requires RestoreEvent(e, from, to, polls) && RestoreGrows(earlier, from) && RestoreGrows(to, later)
    ensures RestoreEvent(e, earlier, later, polls)
  {
  }

  /** A save, refused, parked or done, of a candidate that was not yet known. */
  predicate SaveEvent(e: Event, candidates: seq<Candidate>, to: Loop) {
    && (e.Saved? || e.Parked? || e.SaveRefused? || e.Skipped?)
    && Candidate(e.model, e.slot, e.tokens) in candidates
    && (e.Saved? ==> (e.model, e.tokens) in to.seen)
  }

  /** A refused restore is forgotten only with an admission for its model. */
  ghost predicate SaveKeeps(from: Loop, to: Loop, events: seq<Event>) {
    && to.warmed == from.warmed && from.seen <= to.seen
    && forall m, k :: (m, k) in from.refusedFor && (m, k) !in to.refusedFor ==> AdmittedFor(events, m)
  }

  ghost predicate AdmittedFor(events: seq<Event>, model: string) {
    exists e :: e in events && e.Saved? && e.model == model && e.admitted
  }

  lemma {:induction false} CaptureAllEvents(loop: Loop, candidates: seq<Candidate>, k: nat, save: nat -> SaveReply, admitter: bool, events: seq<Event>)
    requires k <= |candidates|
    ensures var t := CaptureAll(loop, candidates, k, save, admitter, events);
      SaveKeeps(loop, t.loop, t.events) && forall e :: e in t.events ==> e in events || SaveEvent(e, candidates, t.loop)
    ensures forall e :: e in events ==> e in CaptureAll(loop, candidates, k, save, admitter, events).events
    decreases |candidates| - k
  {
    hide WorthCapturing;
    if k < |candidates| {
      var next := CaptureOne(loop, candidates[k], save(k), admitter);
      if next.Some? {
        var (mid, e) := next.value;
        assert next.value == (mid, e);
        if !(e.Saved? && save(k).SavesUnreadably?) {
          CaptureAllEvents(mid, candidates, k + 1, save, admitter, events + [e]);
        }
        CaptureOneKeeps(loop, candidates[k], save(k), admitter, mid, e);
        var t := CaptureAll(loop, candidates, k, save, admitter, events);
        assert e in events + [e];
        assert e in t.events;
        assert Candidate(e.model, e.slot, e.tokens) == candidates[k];
        assert SaveEvent(e, candidates, t.loop);
        forall m, s | (m, s) in loop.refusedFor && (m, s) !in t.loop.refusedFor
          ensures AdmittedFor(t.events, m)
        {
          if (m, s) !in mid.refusedFor {
            assert e in t.events && e.Saved? && e.model == m && e.admitted;
          }
        }
      }
    }
  }

  lemma CaptureOneKeeps(loop: Loop, c: Candidate, reply: SaveReply, admitter: bool, mid: Loop, e: Event)
    requires CaptureOne(loop, c, reply, admitter) == Some((mid, e))
    ensures !e.RestoreOk? && !e.RestoreRefused? && !e.RestoreNone?
    ensures Candidate(e.model, e.slot, e.tokens) == c
    ensures mid.warmed == loop.warmed && loop.seen <= mid.seen
    ensures e.Saved? ==> (c.model, c.tokens) in mid.seen
    ensures forall m, s :: (m, s) in loop.refusedFor && (m, s) !in mid.refusedFor ==> e.Saved? && e.model == m && e.admitted
  {
  }

  /** Where the candidates of a tick come from. */
  ghost predicate Comes(c: Candidate, polls: seq<Poll>, minTokens: int, already: set<Key>) {
    && (c.model, c.tokens) !in already && c.tokens >= minTokens
    && exists p, i :: 0 <= p < |polls| && polls[p].model == c.model && 0 <= i < |polls[p].slots|
         && polls[p].slots[i] == Slot(Some(c.slot), c.tokens, false)
  }

  lemma {:induction false} SlotCandidatesCome(model: string, slots: seq<Slot>, minTokens: int, already: set<Key>, c: Candidate)
    returns (i: nat)
    requires SlotCandidates(model, slots, minTokens, already).Some? && c in SlotCandidates(model, slots, minTokens, already).value
    ensures c.model == model && (c.model, c.tokens) !in already && c.tokens >= minTokens
    ensures i < |slots| && slots[i] == Slot(Some(c.slot), c.tokens, false)
    decreases |slots|
  {
    if c in SlotCandidates(model, slots[1..], minTokens, already).value {
      var j := SlotCandidatesCome(model, slots[1..], minTokens, already, c);
      i := j + 1;
    } else {
      i := 0;
    }
  }

  lemma {:induction false} AllCandidatesCome(polls: seq<Poll>, minTokens: int, already: set<Key>, c: Candidate)
    requires AllCandidates(polls, minTokens, already).Some? && c in AllCandidates(polls, minTokens, already).value
    ensures Comes(c, polls, minTokens, already)
    decreases |polls|
  {
    if c in SlotCandidates(polls[0].model, polls[0].slots, minTokens, already).value {
      var i := SlotCandidatesCome(polls[0].model, polls[0].slots, minTokens, already, c);
      assert polls[0].slots[i] == Slot(Some(c.slot), c.tokens, false);
    } else {
      AllCandidatesCome(polls[1..], minTokens, already, c);
      var p, i :| 0 <= p < |polls[1..]| && polls[1..][p].model == c.model && 0 <= i < |polls[1..][p].slots|
        && polls[1..][p].slots[i] == Slot(Some(c.slot), c.tokens, false);
      assert polls[p + 1].slots[i] == Slot(Some(c.slot), c.tokens, false);
    }
  }

  lemma {:induction false} LoadedOnlyIn(candidates: seq<Candidate>, loaded: set<string>, c: Candidate)
    requires c in LoadedOnly(candidates, loaded)
    ensures c in candidates && c.model in loaded
  {
    if c in LoadedOnly(candidates[1..], loaded) {
      LoadedOnlyIn(candidates[1..], loaded, c);
    }
  }

  lemma ToCaptureComes(loop: Loop, input: Input, config: Config, c: Candidate)
    requires ToCapture(loop, input, config).Some? && c in ToCapture(loop, input, config).value
    ensures Comes(c, input.polls, config.minTokens, loop.seen)
  {
    hide Comes;
    var all := AllCandidates(input.polls, config.minTokens, loop.seen).value;
    LoadedOnlyIn(Sorted(all, BiggestFirst), Loaded(input.polls), c);
    SortedIsPermutation(all, BiggestFirst);
    SameMembers(Sorted(all, BiggestFirst), all);
    AllCandidatesCome(input.polls, config.minTokens, loop.seen, c);
  }

  function CandidatesOf(loop: Loop, input: Input, config: Config): seq<Candidate> {
    var candidates := ToCapture(loop, input, config);
    if candidates.None? then [] else candidates.value
  }

  /** Everything one tick does to the sets it remembers, in terms of its events. */
  lemma TickEffects(loop: Loop, input: Input, config: Config) returns (cleared: Loop, ready: Loop, t: Ticked)
    ensures t == Tick(loop, input, config)
    ensures cleared == if input.reachable then loop.(warmed := StillWarmed(loop.warmed, input.polls).0) else loop
    ensures RestoreGrows(cleared, ready) && SaveKeeps(ready, t.loop, t.events)
    ensures forall e :: e in t.events ==>
      RestoreEvent(e, cleared, ready, input.polls)
      || (SaveEvent(e, CandidatesOf(ready, input, config), t.loop)
          && Comes(Candidate(e.model, e.slot, e.tokens), input.polls, config.minTokens, ready.seen))
  {
    hide RestoreEvent, SaveKeeps, Comes, CaptureAll, RestoreFresh, StillWarmed, ToCapture, Tick;
    var restored := Restored(loop, input, config);
    cleared := RestoredEvents(loop, input, config);
    ready := restored.loop;
    t := Tick(loop, input, config);
    TickIs(loop, input, config);
    if restored.aborted || ToCapture(ready, input, config).None? {
      NothingKeeps(ready, restored.events);
      return;
    }
    var candidates := ToCapture(ready, input, config).value;
    CaptureAllEvents(ready, candidates, 0, input.save, config.admitter, restored.events);
    forall e | e in t.events
      ensures RestoreEvent(e, cleared, ready, input.polls)
        || (SaveEvent(e, candidates, t.loop) && Comes(Candidate(e.model, e.slot, e.tokens), input.polls, config.minTokens, ready.seen))
    {
      if e !in restored.events {
        ToCaptureComes(ready, input, config, Candidate(e.model, e.slot, e.tokens));
      }
    }
  }

  lemma TickIs(loop: Loop, input: Input, config: Config)
    ensures var ready := Restored(loop, input, config);
      Tick(loop, input, config) ==
        if ready.aborted then ready
        else if ToCapture(ready.loop, input, config).None? then Ticked(ready.loop, ready.events, true)
        else CaptureAll(ready.loop, ToCapture(ready.loop, input, config).value, 0, input.save, config.admitter, ready.events)
  {
    hide Restored, ToCapture, CaptureAll;
  }

  /** What a tick does before it saves anything. */
  lemma RestoredEvents(loop: Loop, input: Input, config: Config) returns (cleared: Loop)
    ensures cleared == if input.reachable then loop.(warmed := StillWarmed(loop.warmed, input.polls).0) else loop
    ensures var t := Restored(loop, input, config);
      RestoreGrows(cleared, t.loop) && forall e :: e in t.events ==> RestoreEvent(e, cleared, t.loop, input.polls)
  {
    hide RestoreEvent, RestoreFresh, StillWarmed;
    cleared := if input.reachable then loop.(warmed := StillWarmed(loop.warmed, input.polls).0) else loop;
    if input.reachable && !StillWarmed(loop.warmed, input.polls).1 && config.restorer {
      var after := RestoreFresh(cleared, input.polls, input.restore, []);
      RestoreFreshEvents(cleared, input.polls, input.restore, [], 0, input.polls);
      var t := Restored(loop, input, config);
      forall e | e in t.events
        ensures RestoreEvent(e, cleared, t.loop, input.polls)
      {
        assert RestoreEvent(e, cleared, after.loop, input.polls);
        PreviousDoesNotMatter(e, cleared, after.loop, t.loop, input.polls);
      }
    }
  }

  lemma NothingKeeps(loop: Loop, events: seq<Event>)
    ensures SaveKeeps(loop, loop, events)
  {
  }

  lemma PreviousDoesNotMatter(e: Event, from: Loop, to: Loop, same: Loop, polls: seq<Poll>)
    requires RestoreEvent(e, from, to, polls) && same == to.(previous := same.previous)
    ensures RestoreEvent(e, from, same, polls)
  {
  }

  // What survives from tick to tick

  lemma TickWarmed(loop: Loop, input: Input, config: Config, model: string, slot: int)
    requires (model, slot) in loop.warmed && !PolledFull(input, model, slot)
    ensures (model, slot) in Tick(loop, input, config).loop.warmed
    ensures forall e :: e in Tick(loop, input, config).events ==> !Attempts(e, model, slot)
  {
    hide RestoreEvent, SaveEvent, Comes;
    var cleared, ready, t := TickEffects(loop, input, config);
    if input.reachable {
      StillWarmedUnlessFull(loop.warmed, input.polls, model, slot);
    }
    forall e | e in t.events
      ensures !Attempts(e, model, slot)
    {
      if Attempts(e, model, slot) {
        NotASave(e, CandidatesOf(ready, input, config), t.loop);
        RestoreNotWarmed(e, cleared, ready, input.polls);
      }
    }
  }

  lemma NotASave(e: Event, candidates: seq<Candidate>, to: Loop)
    ensures SaveEvent(e, candidates, to) ==> !e.RestoreOk? && !e.RestoreRefused? && !e.RestoreNone?
  {
  }

  lemma RestoreNotWarmed(e: Event, from: Loop, to: Loop, polls: seq<Poll>)
    requires RestoreEvent(e, from, to, polls)
    ensures (e.model, e.slot) !in from.warmed && (e.model, e.slot) !in from.refusedFor
    ensures e.RestoreOk? ==> (e.model, e.slot) in to.warmed
    ensures e.RestoreRefused? ==> (e.model, e.slot) in to.refusedFor
    ensures !e.Saved?
  {
  }

  lemma TickRefused(loop: Loop, input: Input, config: Config, model: string, slot: int)
    requires (model, slot) in loop.refusedFor
    ensures forall e :: e in Tick(loop, input, config).events ==> !Attempts(e, model, slot)
    ensures (model, slot) in Tick(loop, input, config).loop.refusedFor || AdmittedFor(Tick(loop, input, config).events, model)
  {
    hide RestoreEvent, SaveEvent, Comes;
    var cleared, ready, t := TickEffects(loop, input, config);
    forall e | e in t.events
      ensures !Attempts(e, model, slot)
    {
      if Attempts(e, model, slot) {
        NotASave(e, CandidatesOf(ready, input, config), t.loop);
        RestoreNotWarmed(e, cleared, ready, input.polls);
      }
    }
  }

  /** What a tick's own events leave behind. */
  lemma TickRecords(loop: Loop, input: Input, config: Config, e: Event)
    requires e in Tick(loop, input, config).events
    ensures var t := Tick(loop, input, config);
      && (e.RestoreOk? ==> (e.model, e.slot) in t.loop.warmed)
      && (e.RestoreRefused? ==> (e.model, e.slot) in t.loop.refusedFor || AdmittedFor(t.events, e.model))
      && (e.Saved? ==> (e.model, e.tokens) in t.loop.seen && (e.model, e.tokens) !in loop.seen)
      && loop.seen <= t.loop.seen
  {
    hide Comes, RestoreEvent;
    var cleared, ready, t := TickEffects(loop, input, config);
    if e.RestoreOk? || e.RestoreRefused? {
      NotASave(e, CandidatesOf(ready, input, config), t.loop);
      RestoreNotWarmed(e, cleared, ready, input.polls);
    } else if e.Saved? {
      if RestoreEvent(e, cleared, ready, input.polls) {
        RestoreNotWarmed(e, cleared, ready, input.polls);
      }
      ComesUnseen(Candidate(e.model, e.slot, e.tokens), input.polls, config.minTokens, ready.seen);
    }
  }

  lemma ComesUnseen(c: Candidate, polls: seq<Poll>, minTokens: int, already: set<Key>)
    requires Comes(c, polls, minTokens, already)
    ensures (c.model, c.tokens) !in already && c.tokens >= minTokens
  {
  }

  lemma TickSeen(loop: Loop, input: Input, config: Config)
    ensures loop.seen <= Tick(loop, input, config).loop.seen
  {
    hide RestoreEvent, SaveEvent, Comes;
    var cleared, ready, t := TickEffects(loop, input, config);
  }

  // Main results over runs

  /**
   * Between two successful restores into one slot of a model some tick saw the slot holding
   * something: the daemon never restores again over what it has just restored.
   */
  lemma {:induction false} RestoresAreSeparated(loop: Loop, inputs: seq<Input>, config: Config, i: nat, j: nat, model: string, slot: int)
    requires i < j < |inputs|
    requires RestoreOk(model, slot) in EventsOf(loop, inputs, config, i)
    requires RestoreOk(model, slot) in EventsOf(loop, inputs, config, j)
    ensures exists t :: i < t <= j && PolledFull(inputs[t], model, slot)
  {
    hide Tick, PolledFull;
    assert Attempts(RestoreOk(model, slot), model, slot);
    if forall t :: i < t <= j ==> !PolledFull(inputs[t], model, slot) {
      TickRecords(Before(loop, inputs, config, i), inputs[i], config, RestoreOk(model, slot));
      WarmedLasts(loop, inputs, config, i + 1, j, model, slot);
      TickWarmed(Before(loop, inputs, config, j), inputs[j], config, model, slot);
      assert false;
    }
  }

  lemma {:induction false} WarmedLasts(loop: Loop, inputs: seq<Input>, config: Config, i: nat, j: nat, model: string, slot: int)
    requires i <= j < |inputs| && (model, slot) in Before(loop, inputs, config, i).warmed
    requires forall t :: i <= t <= j ==> !PolledFull(inputs[t], model, slot)
    ensures (model, slot) in Before(loop, inputs, config, j).warmed
    decreases j - i
  {
    hide Tick, PolledFull;
    if i < j {
      TickWarmed(Before(loop, inputs, config, i), inputs[i], config, model, slot);
      WarmedLasts(loop, inputs, config, i + 1, j, model, slot);
    }
  }

  /** A restore that was refused is not attempted again in that slot until something is admitted for the model. */
  lemma {:induction false} RefusedRestoreWaitsForAdmission(loop: Loop, inputs: seq<Input>, config: Config, i: nat, j: nat, e: Event, model: string, slot: int)
    requires i < j < |inputs|
    requires RestoreRefused(model, slot) in EventsOf(loop, inputs, config, i)
    requires e in EventsOf(loop, inputs, config, j) && Attempts(e, model, slot)
    ensures exists t :: i <= t < j && AdmittedFor(EventsOf(loop, inputs, config, t), model)
  {
    hide Tick, AdmittedFor;
    if forall t :: i <= t < j ==> !AdmittedFor(EventsOf(loop, inputs, config, t), model) {
      TickRecords(Before(loop, inputs, config, i), inputs[i], config, RestoreRefused(model, slot));
      assert !AdmittedFor(EventsOf(loop, inputs, config, i), model);
      RefusalLasts(loop, inputs, config, i + 1, j, model, slot);
      TickRefused(Before(loop, inputs, config, j), inputs[j], config, model, slot);
      assert false;
    }
  }

  lemma {:induction false} RefusalLasts(loop: Loop, inputs: seq<Input>, config: Config, i: nat, j: nat, model: string, slot: int)
    requires i <= j < |inputs| && (model, slot) in Before(loop, inputs, config, i).refusedFor
    requires forall t :: i <= t < j ==> !AdmittedFor(EventsOf(loop, inputs, config, t), model)
    ensures (model, slot) in Before(loop, inputs, config, j).refusedFor
    decreases j - i
  {
    hide Tick, AdmittedFor;
    if i < j {
      TickRefused(Before(loop, inputs, config, i), inputs[i], config, model, slot);
      assert !AdmittedFor(EventsOf(loop, inputs, config, i), model);
      RefusalLasts(loop, inputs, config, i + 1, j, model, slot);
    }
  }

  lemma {:induction false} SeenLasts(loop: Loop, inputs: seq<Input>, config: Config, i: nat, j: nat)
    requires i <= j <= |inputs|
    ensures Before(loop, inputs, config, i).seen <= Before(loop, inputs, config, j).seen
    decreases j - i
  {
    hide Tick;
    if i < j {
      TickSeen(Before(loop, inputs, config, i), inputs[i], config);
      SeenLasts(loop, inputs, config, i + 1, j);
    }
  }

  /** No token count of a model is saved in two different ticks. */
  lemma SavedOnce(loop: Loop, inputs: seq<Input>, config: Config, i: nat, j: nat, e: Event, f: Event)
    requires i < j < |inputs|
    requires e in EventsOf(loop, inputs, config, i) && f in EventsOf(loop, inputs, config, j) && e.Saved? && f.Saved?
    ensures (e.model, e.tokens) != (f.model, f.tokens)
  {
    hide Tick;
    TickRecords(Before(loop, inputs, config, i), inputs[i], config, e);
    SeenLasts(loop, inputs, config, i + 1, j);
    TickRecords(Before(loop, inputs, config, j), inputs[j], config, f);
  }

  predicate Touchable(slot: Slot, e: Event, config: Config) {
    && slot.Slot? && slot.id == Some(e.slot) && !slot.busy
    && if Attempts(e, e.model, e.slot) then slot.tokens == 0 else e.tokens == slot.tokens && slot.tokens >= config.minTokens
  }

  ghost predicate TouchesPolled(input: Input, e: Event, config: Config) {
    exists p, i :: 0 <= p < |input.polls| && input.polls[p].model == e.model && 0 <= i < |input.polls[p].slots|
      && Touchable(input.polls[p].slots[i], e, config)
  }

  // When one tick saves a count twice

  predicate Answered(reply: SaveReply) {
    reply.Saves? || reply.SavesUnreadably?
  }

  /** What was captured last from a slot before the k-th candidate of a tick: by an earlier candidate, or before the tick. */
  function Remembered(loop: Loop, candidates: seq<Candidate>, save: nat -> SaveReply, k: nat, model: string, slot: int): int
    requires k <= |candidates|
    decreases k, 0
  {
    if k == 0 then SlotHistory(loop, model, slot)
    else if candidates[k - 1].model == model && candidates[k - 1].slot == slot && SavesAt(loop, candidates, save, k - 1)
    then candidates[k - 1].tokens
    else Remembered(loop, candidates, save, k - 1, model, slot)
  }

  /** Nothing was captured before, or the count fell below half of what was, or grew to six fifths of it at least. */
  predicate Worthwhile(tokens: int, previous: int) {
    previous <= 0 || 2 * tokens < previous || 5 * tokens >= 6 * previous
  }

  /** The k-th candidate is worth capturing over what was captured last from its slot. */
  predicate IsWorth(loop: Loop, candidates: seq<Candidate>, save: nat -> SaveReply, k: nat)
    requires k < |candidates|
    decreases k, 1
  {
    var c := candidates[k];
    c.tokens > 0 && Worthwhile(c.tokens, Remembered(loop, candidates, save, k, c.model, c.slot))
  }

  /** It is, and its save is answered. */
  predicate SavesAt(loop: Loop, candidates: seq<Candidate>, save: nat -> SaveReply, k: nat)
    requires k < |candidates|
    decreases k, 2
  {
    IsWorth(loop, candidates, save, k) && Answered(save(k))
  }

  /** Nothing before the k-th candidate raises: no count that is not positive, no answer that cannot be read. */
  predicate Reached(loop: Loop, candidates: seq<Candidate>, save: nat -> SaveReply, k: nat)
    requires k <= |candidates|
  {
    forall j :: 0 <= j < k ==> GoesOn(loop, candidates, save, j)
  }

  predicate GoesOn(loop: Loop, candidates: seq<Candidate>, save: nat -> SaveReply, j: int)
    requires 0 <= j < |candidates|
  {
    candidates[j].tokens > 0 && !(SavesAt(loop, candidates, save, j) && save(j).SavesUnreadably?)
  }

  /** What becomes of a candidate: skipped when it is not worth it, else parked, refused or saved as its save goes. */
  predicate EventOf(e: Event, c: Candidate, worth: bool, reply: SaveReply, admitter: bool) {
    && (e.Saved? || e.Parked? || e.SaveRefused? || e.Skipped?) && Candidate(e.model, e.slot, e.tokens) == c
    && (e.Skipped? <==> !worth) && (e.Parked? <==> worth && reply.TimesOut?) && (e.SaveRefused? <==> worth && reply.SaveRaises?)
    && (e.Saved? ==> (e.admitted <==> admitter && reply.Saves? && reply.admit.Admits?))
  }

  /** The events behind `before` are those of the first n candidates. */
  predicate Traced(
      loop: Loop, candidates: seq<Candidate>, save: nat -> SaveReply, admitter: bool, before: seq<Event>, events: seq<Event>, n: nat)
  {
    && n <= |candidates| && |events| == |before| + n && before <= events
    && forall j :: 0 <= j < n ==> EventOf(events[|before| + j], candidates[j], IsWorth(loop, candidates, save, j), save(j), admitter)
  }

  ghost predicate HistoryIs(start: Loop, loop: Loop, candidates: seq<Candidate>, save: nat -> SaveReply, k: nat)
    requires k <= |candidates|
  {
    forall model, slot :: SlotHistory(loop, model, slot) == Remembered(start, candidates, save, k, model, slot)
  }

  /** The saving loop deals with the candidates in order, up to the first that raises. */
  lemma {:induction false} CaptureAllTrace(
      start: Loop, loop: Loop, candidates: seq<Candidate>, k: nat, save: nat -> SaveReply, admitter: bool,
      before: seq<Event>, events: seq<Event>) returns (n: nat)
    requires k <= |candidates| && Traced(start, candidates, save, admitter, before, events, k)
    requires Reached(start, candidates, save, k) && HistoryIs(start, loop, candidates, save, k)
    ensures Traced(start, candidates, save, admitter, before, CaptureAll(loop, candidates, k, save, admitter, events).events, n)
    ensures HistoryIs(start, CaptureAll(loop, candidates, k, save, admitter, events).loop, candidates, save, n)
    ensures forall j :: 0 <= j < |candidates| ==> (j < n <==> Reached(start, candidates, save, j) && candidates[j].tokens > 0)
    decreases |candidates| - k
  {
    hide CaptureOne, SavesAt, IsWorth, Remembered, WorthCapturing, SlotHistory;
    n := k;
    if k == |candidates| {
      TraceEnds(start, candidates, save, k, n);
    } else {
      var c := candidates[k];
      var next := CaptureOne(loop, c, save(k), admitter);
      OneIsTraced(start, loop, candidates, k, save, admitter);
      if next.None? {
        TraceEnds(start, candidates, save, k, n);
      } else {
        var (mid, e) := next.value;
        assert next.value == (mid, e);
        var more := events + [e];
        assert forall i :: 0 <= i < |events| ==> more[i] == events[i];
        assert more[|before| + k] == e;
        assert Traced(start, candidates, save, admitter, before, more, k + 1);
        n := k + 1;
        if e.Saved? && save(k).SavesUnreadably? {
          TraceEnds(start, candidates, save, k, n);
        } else {
          assert GoesOn(start, candidates, save, k);
          n := CaptureAllTrace(start, mid, candidates, k + 1, save, admitter, before, more);
        }
      }
    }
  }

  lemma TraceEnds(start: Loop, candidates: seq<Candidate>, save: nat -> SaveReply, k: nat, n: nat)
    requires k <= |candidates| && Reached(start, candidates, save, k)
    requires
      || (n == k && (k == |candidates| || candidates[k].tokens <= 0))
      || (n == k + 1 <= |candidates| && candidates[k].tokens > 0 && !GoesOn(start, candidates, save, k))
    ensures forall j :: 0 <= j < |candidates| ==> (j < n <==> Reached(start, candidates, save, j) && candidates[j].tokens > 0)
  {
    hide SavesAt;
    forall j | 0 <= j < |candidates|
      ensures j < n <==> Reached(start, candidates, save, j) && candidates[j].tokens > 0
    {
      if j < k {
        assert GoesOn(start, candidates, save, j);
      } else if j > k {
        assert !GoesOn(start, candidates, save, k);
      }
    }
  }

  lemma OneIsTraced(start: Loop, loop: Loop, candidates: seq<Candidate>, k: nat, save: nat -> SaveReply, admitter: bool)
    requires k < |candidates| && HistoryIs(start, loop, candidates, save, k)
    ensures var next := CaptureOne(loop, candidates[k], save(k), admitter);
      && (next.Some? <==> candidates[k].tokens > 0)
      && (next.Some? ==>
            && EventOf(next.value.1, candidates[k], IsWorth(start, candidates, save, k), save(k), admitter)
            && (next.value.1.Saved? <==> SavesAt(start, candidates, save, k))
            && HistoryIs(start, next.value.0, candidates, save, k + 1))
  {
    hide OtherModels;
    var c := candidates[k];
    assert SlotHistory(loop, c.model, c.slot) == Remembered(start, candidates, save, k, c.model, c.slot);
    var next := CaptureOne(loop, c, save(k), admitter);
    if next.Some? {
      var mid := next.value.0;
      assert next.value.1.Saved? <==> SavesAt(start, candidates, save, k);
      forall model, slot
        ensures SlotHistory(mid, model, slot) == Remembered(start, candidates, save, k + 1, model, slot)
      {
        assert SlotHistory(loop, model, slot) == Remembered(start, candidates, save, k, model, slot);
        RememberedStep(start, candidates, save, k, model, slot);
      }
    }
  }

  lemma RememberedStep(loop: Loop, candidates: seq<Candidate>, save: nat -> SaveReply, k: nat, model: string, slot: int)
    requires k < |candidates|
    ensures Remembered(loop, candidates, save, k + 1, model, slot) ==
      if candidates[k].model == model && candidates[k].slot == slot && SavesAt(loop, candidates, save, k) then candidates[k].tokens
      else Remembered(loop, candidates, save, k, model, slot)
  {
  }

  lemma WorthAndAnswered(loop: Loop, candidates: seq<Candidate>, save: nat -> SaveReply, k: nat)
    requires k < |candidates|
    ensures SavesAt(loop, candidates, save, k) <==> IsWorth(loop, candidates, save, k) && Answered(save(k))
  {
  }

  lemma SavedAreWorth(loop: Loop, candidates: seq<Candidate>, save: nat -> SaveReply, k: nat)
    requires k < |candidates| && SavesAt(loop, candidates, save, k)
    ensures IsWorth(loop, candidates, save, k) && Answered(save(k)) && candidates[k].tokens > 0
  {
  }

  predicate SaveOf(e: Event, model: string, tokens: int) {
    e.Saved? && e.model == model && e.tokens == tokens
  }

  ghost predicate SavedTwice(events: seq<Event>, model: string, tokens: int) {
    exists i, j :: 0 <= i < j < |events| && SaveOf(events[i], model, tokens) && SaveOf(events[j], model, tokens)
  }

  predicate Counts(c: Candidate, model: string, tokens: int) {
    c.model == model && c.tokens == tokens
  }

  /** Two candidates of this count are reached and worth it, and both saves are answered. */
  ghost predicate TwoAnswered(loop: Loop, candidates: seq<Candidate>, save: nat -> SaveReply, model: string, tokens: int) {
    exists a, b ::
      && 0 <= a < b < |candidates| && Counts(candidates[a], model, tokens) && Counts(candidates[b], model, tokens)
      && SavesAt(loop, candidates, save, a) && SavesAt(loop, candidates, save, b) && Reached(loop, candidates, save, b)
  }

  /**
   * One tick saves a count of a model twice if and only if nothing raises before, and two of its candidates have this
   * count, are each worth capturing over what their slot last gave, and have their saves answered. What has been seen
   * before the tick, or is parked or refused in it, is not among these.
   */
  lemma SavedTwiceExactly(loop: Loop, input: Input, config: Config, model: string, tokens: int)
    ensures var ready := Restored(loop, input, config);
      SavedTwice(Tick(loop, input, config).events, model, tokens) <==>
      && !ready.aborted && ToCapture(ready.loop, input, config).Some?
      && TwoAnswered(ready.loop, ToCapture(ready.loop, input, config).value, input.save, model, tokens)
  {
    hide Restored, Tick, ToCapture, CaptureAll, RestoreEvent, TwoAnswered, SavedTwice;
    var ready := Restored(loop, input, config);
    var cleared := RestoredEvents(loop, input, config);
    forall e | e in ready.events
      ensures !e.Saved?
    {
      RestoreNotWarmed(e, cleared, ready.loop, input.polls);
    }
    TickIs(loop, input, config);
    NotSavedTwice(ready.events, model, tokens);
    if !ready.aborted && ToCapture(ready.loop, input, config).Some? {
      var candidates := ToCapture(ready.loop, input, config).value;
      TraceStarts(ready.loop, candidates, input.save, config.admitter, ready.events);
      var n := CaptureAllTrace(ready.loop, ready.loop, candidates, 0, input.save, config.admitter, ready.events, ready.events);
      TracedTwice(ready.loop, candidates, input.save, config.admitter, ready.events, Tick(loop, input, config).events, n, model, tokens);
    }
  }

  lemma NotSavedTwice(events: seq<Event>, model: string, tokens: int)
    requires forall e :: e in events ==> !e.Saved?
    ensures !SavedTwice(events, model, tokens)
  {
  }

  lemma TraceStarts(loop: Loop, candidates: seq<Candidate>, save: nat -> SaveReply, admitter: bool, events: seq<Event>)
    ensures Traced(loop, candidates, save, admitter, events, events, 0) && Reached(loop, candidates, save, 0)
    ensures HistoryIs(loop, loop, candidates, save, 0)
  {
  }

  lemma TracedTwice(
      loop: Loop, candidates: seq<Candidate>, save: nat -> SaveReply, admitter: bool, before: seq<Event>, events: seq<Event>, n: nat,
      model: string, tokens: int)
    requires Traced(loop, candidates, save, admitter, before, events, n) && forall e :: e in before ==> !e.Saved?
    requires forall j :: 0 <= j < |candidates| ==> (j < n <==> Reached(loop, candidates, save, j) && candidates[j].tokens > 0)
    ensures SavedTwice(events, model, tokens) <==> TwoAnswered(loop, candidates, save, model, tokens)
  {
    hide Traced, SavedTwice, TwoAnswered, Reached, IsWorth, SavesAt;
    if SavedTwice(events, model, tokens) {
      TwiceWasAnswered(loop, candidates, save, admitter, before, events, n, model, tokens);
    }
    if TwoAnswered(loop, candidates, save, model, tokens) {
      AnsweredIsTwice(loop, candidates, save, admitter, before, events, n, model, tokens);
    }
  }

  lemma TwiceWasAnswered(
      loop: Loop, candidates: seq<Candidate>, save: nat -> SaveReply, admitter: bool, before: seq<Event>, events: seq<Event>, n: nat,
      model: string, tokens: int)
    requires Traced(loop, candidates, save, admitter, before, events, n) && forall e :: e in before ==> !e.Saved?
    requires forall j :: 0 <= j < |candidates| ==> (j < n <==> Reached(loop, candidates, save, j) && candidates[j].tokens > 0)
    requires SavedTwice(events, model, tokens)
    ensures TwoAnswered(loop, candidates, save, model, tokens)
  {
    hide Reached, IsWorth, SavesAt;
    var i, j :| 0 <= i < j < |events| && SaveOf(events[i], model, tokens) && SaveOf(events[j], model, tokens);
    assert forall k :: 0 <= k < |before| ==> events[k] == before[k] && before[k] in before;
    EventWasSave(loop, candidates, save, admitter, before, events, n, i - |before|);
    EventWasSave(loop, candidates, save, admitter, before, events, n, j - |before|);
    assert Counts(candidates[i - |before|], model, tokens) && Counts(candidates[j - |before|], model, tokens);
  }

  lemma EventWasSave(
      loop: Loop, candidates: seq<Candidate>, save: nat -> SaveReply, admitter: bool, before: seq<Event>, events: seq<Event>, n: nat, k: nat)
    requires Traced(loop, candidates, save, admitter, before, events, n) && k < n
    ensures var e := events[|before| + k];
      && (e.Saved? || e.Parked? || e.SaveRefused? || e.Skipped?) && Candidate(e.model, e.slot, e.tokens) == candidates[k]
      && (e.Saved? <==> SavesAt(loop, candidates, save, k))
  {
    hide IsWorth, SavesAt;
    WorthAndAnswered(loop, candidates, save, k);
    assert EventOf(events[|before| + k], candidates[k], IsWorth(loop, candidates, save, k), save(k), admitter);
  }

  lemma AnsweredIsTwice(
      loop: Loop, candidates: seq<Candidate>, save: nat -> SaveReply, admitter: bool, before: seq<Event>, events: seq<Event>, n: nat,
      model: string, tokens: int)
    requires Traced(loop, candidates, save, admitter, before, events, n)
    requires forall j :: 0 <= j < |candidates| ==> (j < n <==> Reached(loop, candidates, save, j) && candidates[j].tokens > 0)
    requires TwoAnswered(loop, candidates, save, model, tokens)
    ensures SavedTwice(events, model, tokens)
  {
    hide Reached, IsWorth, SavesAt;
    var a, b :| 0 <= a < b < |candidates| && Counts(candidates[a], model, tokens) && Counts(candidates[b], model, tokens)
      && SavesAt(loop, candidates, save, a) && SavesAt(loop, candidates, save, b) && Reached(loop, candidates, save, b);
    SavedAreWorth(loop, candidates, save, a);
    SavedAreWorth(loop, candidates, save, b);
    EventWasSave(loop, candidates, save, admitter, before, events, n, a);
    EventWasSave(loop, candidates, save, admitter, before, events, n, b);
    assert SaveOf(events[|before| + a], model, tokens) && SaveOf(events[|before| + b], model, tokens);
  }

  /** It happens: two slots of a model that hold the same count, on the first tick. */
  lemma OneTickMaySaveTwice(model: string, tokens: int, input: Input, config: Config)
    requires tokens > 0 && tokens >= config.minTokens && !config.restorer && input.reachable
    requires input.polls == [Poll(model, [Slot(Some(0), tokens, false), Slot(Some(1), tokens, false)])]
    requires Answered(input.save(0)) && input.save(1).Saves? && !input.save(0).SavesUnreadably?
    ensures SavedTwice(Tick(STARTED, input, config).events, model, tokens)
  {
    hide Tick, SavedTwice;
    var a, b := Candidate(model, 0, tokens), Candidate(model, 1, tokens);
    var slots := input.polls[0].slots;
    assert slots[1..] == [Slot(Some(1), tokens, false)] && slots[1..][1..] == [];
    var none: seq<Slot> := [];
    assert SlotCandidates(model, none, config.minTokens, {}) == Some([]) && Discarded({}, model, none) == ({}, false);
    assert [b] + [] == [b] && [a] + [b] == [a, b] && [a, b] + [] == [a, b];
    assert SlotCandidates(model, slots[1..], config.minTokens, {}) == Some([b]);
    assert SlotCandidates(model, slots, config.minTokens, {}) == Some([a, b]);
    assert input.polls[1..] == [] && [a, b][1..] == [b] && [b][1..] == [];
    assert AllCandidates(input.polls, config.minTokens, {}) == Some([a, b]);
    SortedOfOrdered([a, b], BiggestFirst);
    assert input.polls[0].model in Loaded(input.polls);
    assert LoadedOnly([b], Loaded(input.polls)) == [b];
    assert LoadedOnly([a, b], Loaded(input.polls)) == [a, b];
    assert {} - {(model, 0)} == {} && {} - {(model, 1)} == {};
    assert Discarded({}, model, slots[1..]) == ({}, false);
    assert Discarded({}, model, slots) == ({}, false);
    assert StillWarmed({}, input.polls) == ({}, false);
    var ready := Restored(STARTED, input, config);
    assert ToCapture(ready.loop, input, config) == Some([a, b]);
    assert SavesAt(ready.loop, [a, b], input.save, 0) && SavesAt(ready.loop, [a, b], input.save, 1);
    assert GoesOn(ready.loop, [a, b], input.save, 0);
    assert Counts([a, b][0], model, tokens) && Counts([a, b][1], model, tokens);
    SavedTwiceExactly(STARTED, input, config, model, tokens);
  }

  /**
   * Nothing is woken and nothing live is touched: a restore goes into a slot polled idle and
   * empty, a save to a slot polled idle with at least the minimum, both in this very tick.
   */
  lemma OnlyIdleSlotsAreTouched(loop: Loop, input: Input, config: Config, e: Event)
    requires e in Tick(loop, input, config).events
    ensures TouchesPolled(input, e, config)
  {
    hide Tick;
    var cleared, ready, t := TickEffects(loop, input, config);
    if RestoreEvent(e, cleared, ready, input.polls) {
      var p, i :| 0 <= p < |input.polls| && input.polls[p].model == e.model && 0 <= i < |input.polls[p].slots|
        && input.polls[p].slots[i] == Slot(Some(e.slot), 0, false);
      assert Touchable(input.polls[p].slots[i], e, config);
    } else {
      var c := Candidate(e.model, e.slot, e.tokens);
      assert Comes(c, input.polls, config.minTokens, ready.seen);
      var p, i :| 0 <= p < |input.polls| && input.polls[p].model == c.model && 0 <= i < |input.polls[p].slots|
        && input.polls[p].slots[i] == Slot(Some(c.slot), c.tokens, false);
      assert Touchable(input.polls[p].slots[i], e, config);
    }
  }

  // Churn

  function SavedTokens(events: seq<Event>, model: string, slot: int): seq<int> {
    if events == [] then [] else
    var last := events[|events| - 1];
    SavedTokens(events[..|events| - 1], model, slot)
    + (if last.Saved? && last.model == model && last.slot == slot then [last.tokens] else [])
  }

  lemma {:induction false} SavedSnoc(events: seq<Event>, e: Event, model: string, slot: int)
    ensures SavedTokens(events + [e], model, slot)
         == SavedTokens(events, model, slot) + (if e.Saved? && e.model == model && e.slot == slot then [e.tokens] else [])
  {
    assert (events + [e])[..|events|] == events;
  }

  /** A capture grew by a fifth, or the count fell below half: a different conversation. */
  predicate WorthAfter(previous: int, tokens: int) {
    5 * tokens >= 6 * previous || 2 * tokens < previous
  }

  predicate Chain(tokens: seq<int>) {
    && (forall i :: 0 <= i < |tokens| ==> tokens[i] > 0)
    && forall i {:trigger tokens[i]} :: 0 <= i < |tokens| - 1 ==> WorthAfter(tokens[i], tokens[i + 1])
  }

  /** The daemon remembers the last capture of the slot, and the captures form a chain. */
  predicate Linked(loop: Loop, tokens: seq<int>, model: string, slot: int) {
    && Chain(tokens)
    && if tokens == [] then (model, slot) !in loop.capturedOn
       else (model, slot) in loop.capturedOn && loop.capturedOn[(model, slot)] == tokens[|tokens| - 1]
  }

  lemma AdmittingKeepsCaptures(loop: Loop, model: string, admitter: bool, reply: SaveReply)
    ensures reply.Saves? ==> AfterAdmit(loop, model, admitter, reply.admit).capturedOn == loop.capturedOn
  {
  }

  lemma CaptureOneLinks(loop: Loop, c: Candidate, reply: SaveReply, admitter: bool, mid: Loop, e: Event, tokens: seq<int>, model: string, slot: int)
    requires CaptureOne(loop, c, reply, admitter) == Some((mid, e)) && Linked(loop, tokens, model, slot)
    ensures Linked(mid, tokens + (if e.Saved? && e.model == model && e.slot == slot then [e.tokens] else []), model, slot)
  {
    hide AfterAdmit;
    AdmittingKeepsCaptures(Recorded(loop, c), c.model, admitter, reply);
    if e.Saved? && e.model == model && e.slot == slot {
      if tokens != [] {
        assert WorthAfter(tokens[|tokens| - 1], c.tokens);
      }
    }
  }

  lemma {:induction false} CaptureAllLinks(loop: Loop, candidates: seq<Candidate>, k: nat, save: nat -> SaveReply, admitter: bool, events: seq<Event>, past: seq<Event>, model: string, slot: int)
    requires k <= |candidates|
    requires Linked(loop, SavedTokens(past + events, model, slot), model, slot)
    ensures var t := CaptureAll(loop, candidates, k, save, admitter, events);
      Linked(t.loop, SavedTokens(past + t.events, model, slot), model, slot)
    decreases |candidates| - k
  {
    hide Linked, CaptureOne;
    if k < |candidates| {
      var next := CaptureOne(loop, candidates[k], save(k), admitter);
      if next.Some? {
        var (mid, e) := next.value;
        assert next.value == (mid, e);
        CaptureOneLinks(loop, candidates[k], save(k), admitter, mid, e, SavedTokens(past + events, model, slot), model, slot);
        SavedSnoc(past + events, e, model, slot);
        assert past + events + [e] == past + (events + [e]);
        if !(e.Saved? && save(k).SavesUnreadably?) {
          CaptureAllLinks(mid, candidates, k + 1, save, admitter, events + [e], past, model, slot);
        }
      }
    }
  }

  lemma {:induction false} NothingSaved(past: seq<Event>, events: seq<Event>, model: string, slot: int)
    requires forall e :: e in events ==> !e.Saved?
    ensures SavedTokens(past + events, model, slot) == SavedTokens(past, model, slot)
    decreases |events|
  {
    if events == [] {
      assert past + events == past;
    } else {
      var front, last := events[..|events| - 1], events[|events| - 1];
      NothingSaved(past, front, model, slot);
      SavedSnoc(past + front, last, model, slot);
      assert past + front + [last] == past + events;
    }
  }

  lemma {:induction false} TickLinks(loop: Loop, input: Input, config: Config, past: seq<Event>, model: string, slot: int)
    requires Linked(loop, SavedTokens(past, model, slot), model, slot)
    ensures var t := Tick(loop, input, config); Linked(t.loop, SavedTokens(past + t.events, model, slot), model, slot)
  {
    hide CaptureAll, Restored, Tick, ToCapture, Chain, RestoreEvent;
    var restored := Restored(loop, input, config);
    var cleared := RestoredEvents(loop, input, config);
    forall e | e in restored.events
      ensures !e.Saved?
    {
      RestoreNotWarmed(e, cleared, restored.loop, input.polls);
    }
    NothingSaved(past, restored.events, model, slot);
    TickIs(loop, input, config);
    if !restored.aborted && ToCapture(restored.loop, input, config).Some? {
      CaptureAllLinks(restored.loop, ToCapture(restored.loop, input, config).value, 0, input.save, config.admitter, restored.events,
                      past, model, slot);
    }
  }

  /** All events of the first n ticks, oldest first. */
  function History(loop: Loop, inputs: seq<Input>, config: Config, n: nat): seq<Event>
    requires n <= |inputs|
  {
    if n == 0 then [] else History(loop, inputs, config, n - 1) + EventsOf(loop, inputs, config, n - 1)
  }

  /**
   * Over a whole run, consecutive captures p and then c of one slot satisfy c >= 6/5 p or
   * c < p/2, in whatever order the ticks bring them.
   */
  lemma {:induction false} CapturesFormAChain(inputs: seq<Input>, config: Config, n: nat, model: string, slot: int)
    requires n <= |inputs|
    ensures Linked(Before(STARTED, inputs, config, n), SavedTokens(History(STARTED, inputs, config, n), model, slot), model, slot)
  {
    hide Tick, Linked;
    if n == 0 {
      StartLinked(model, slot);
    } else {
      CapturesFormAChain(inputs, config, n - 1, model, slot);
      TickLinks(Before(STARTED, inputs, config, n - 1), inputs[n - 1], config, History(STARTED, inputs, config, n - 1), model, slot);
    }
  }

  lemma StartLinked(model: string, slot: int)
    ensures Linked(STARTED, [], model, slot)
  {
  }

  lemma {:induction false} SavedAreBig(loop: Loop, inputs: seq<Input>, config: Config, n: nat, model: string, slot: int)
    requires n <= |inputs|
    ensures forall e :: e in History(loop, inputs, config, n) && e.Saved? ==> e.tokens >= config.minTokens
  {
    hide Tick;
    if n > 0 {
      SavedAreBig(loop, inputs, config, n - 1, model, slot);
      forall e | e in EventsOf(loop, inputs, config, n - 1) && e.Saved?
        ensures e.tokens >= config.minTokens
      {
        OnlyIdleSlotsAreTouched(Before(loop, inputs, config, n - 1), inputs[n - 1], config, e);
      }
    }
  }

  lemma {:induction false} SavedTokensFrom(events: seq<Event>, model: string, slot: int, least: int)
    requires forall e :: e in events && e.Saved? ==> e.tokens >= least
    ensures forall i :: 0 <= i < |SavedTokens(events, model, slot)| ==> SavedTokens(events, model, slot)[i] >= least
  {
    if events != [] {
      var front := events[..|events| - 1];
      forall e | e in front && e.Saved?
        ensures e.tokens >= least
      {
        assert e in events;
      }
      SavedTokensFrom(front, model, slot, least);
      assert events[|events| - 1] in events;
    }
  }

  function Pow(b: nat, n: nat): nat {
    if n == 0 then 1 else b * Pow(b, n - 1)
  }

  lemma {:induction false} GrowthByFifths(tokens: seq<int>, from: nat, k: nat)
    requires Chain(tokens) && from + k < |tokens|
    requires forall i :: from <= i < from + k ==> 2 * tokens[i + 1] >= tokens[i]
    ensures Pow(5, k) * tokens[from + k] >= Pow(6, k) * tokens[from]
    decreases k
  {
    if k > 0 {
      GrowthByFifths(tokens, from, k - 1);
      var p, c := tokens[from + k - 1], tokens[from + k];
      assert WorthAfter(p, tokens[from + k - 1 + 1]);
      assert 5 * c >= 6 * p;
      FifthStep(Pow(5, k - 1), Pow(6, k - 1), p, c, tokens[from]);
    }
  }

  lemma FifthStep(a: nat, b: nat, p: int, c: int, first: int)
    requires a * p >= b * first && 5 * c >= 6 * p
    ensures (5 * a) * c >= (6 * b) * first
  {
    ScaleUp(a, 5 * c, 6 * p);
    assert (5 * a) * c == a * (5 * c);
    assert a * (6 * p) == 6 * (a * p);
    assert (6 * b) * first == 6 * (b * first);
  }

  lemma ScaleUp(a: nat, b: int, c: int)
    requires b >= c
    ensures a * b >= a * c
  {
  }

  /**
   * The bound on churn: k further captures of a slot with no halving between them, in a run whose
   * captures never exceed a context size, force (6/5)^k times the minimum below that size.
   */
  lemma {:induction false} ChurnIsLogarithmic(inputs: seq<Input>, config: Config, n: nat, model: string, slot: int, from: nat, k: nat, context: int)
    requires n <= |inputs|
    requires var tokens := SavedTokens(History(STARTED, inputs, config, n), model, slot);
      && from + k < |tokens| && tokens[from + k] <= context
      && forall i :: from <= i < from + k ==> 2 * tokens[i + 1] >= tokens[i]
    ensures Pow(6, k) * config.minTokens <= Pow(5, k) * context
  {
    hide Tick, History;
    var tokens := SavedTokens(History(STARTED, inputs, config, n), model, slot);
    CapturesFormAChain(inputs, config, n, model, slot);
    SavedAreBig(STARTED, inputs, config, n, model, slot);
    SavedTokensFrom(History(STARTED, inputs, config, n), model, slot, config.minTokens);
    GrowthByFifths(tokens, from, k);
    ScaleUp(Pow(6, k), tokens[from], config.minTokens);
    ScaleUp(Pow(5, k), context, tokens[from + k]);
  }
}
