/** What one tick of the capture daemon does, exactly: what it forgets, restores, considers, saves and remembers. */
module CaptureTicks {
  import opened Wrappers
  import opened Sequences
  import opened Sorting
  import opened CaptureLoop
  import opened CaptureHistory

  predicate NoneBroken(slots: seq<Slot>) {
    forall i :: 0 <= i < |slots| ==> slots[i].Slot?
  }

  predicate AllWhole(polls: seq<Poll>) {
    forall p :: 0 <= p < |polls| ==> NoneBroken(polls[p].slots)
  }

  // Forgetting

  ghost predicate FullHere(slots: seq<Slot>, id: int) {
    exists i :: 0 <= i < |slots| && HoldsSomething(slots[i], id)
  }

  ghost predicate FullSomewhere(polls: seq<Poll>, model: string, id: int) {
    exists p :: 0 <= p < |polls| && polls[p].model == model && FullHere(polls[p].slots, id)
  }

  lemma {:induction false} DiscardsExactly(warmed: set<Key>, model: string, slots: seq<Slot>, name: string, id: int)
    ensures var (left, raised) := Discarded(warmed, model, slots);
      && (raised <==> !NoneBroken(slots))
      && (!raised ==> ((name, id) in left <==> (name, id) in warmed && !(model == name && FullHere(slots, id))))
    decreases |slots|
  {
    if slots != [] {
      assert slots == [slots[0]] + slots[1..];
      assert forall i :: 0 <= i < |slots| - 1 ==> slots[1..][i] == slots[i + 1];
      if slots[0].Slot? {
        var now := if slots[0].tokens > 0 then warmed - {(model, Named(slots[0]))} else warmed;
        DiscardsExactly(now, model, slots[1..], name, id);
        assert FullHere(slots, id) <==> HoldsSomething(slots[0], id) || FullHere(slots[1..], id);
      }
    }
  }

  /** A warmed slot is forgotten exactly when it is polled holding something; a broken slot anywhere raises. */
  lemma {:induction false} ForgetsExactly(warmed: set<Key>, polls: seq<Poll>, model: string, id: int)
    ensures var (left, raised) := StillWarmed(warmed, polls);
      && (raised <==> !AllWhole(polls))
      && (!raised ==> ((model, id) in left <==> (model, id) in warmed && !FullSomewhere(polls, model, id)))
    decreases |polls|
  {
    hide Discarded, NoneBroken, FullHere;
    if polls != [] {
      assert polls == [polls[0]] + polls[1..];
      var (left, raised) := Discarded(warmed, polls[0].model, polls[0].slots);
      assert Discarded(warmed, polls[0].model, polls[0].slots) == (left, raised);
      DiscardsExactly(warmed, polls[0].model, polls[0].slots, model, id);
      if !raised {
        ForgetsExactly(left, polls[1..], model, id);
        FullCons(polls, model, id);
      }
    }
  }

  lemma FullCons(polls: seq<Poll>, model: string, id: int)
    requires polls != []
    ensures FullSomewhere(polls, model, id) <==>
      (polls[0].model == model && FullHere(polls[0].slots, id)) || FullSomewhere(polls[1..], model, id)
  {
    hide FullHere;
    assert forall p :: 0 <= p < |polls| - 1 ==> polls[1..][p] == polls[p + 1];
  }

  // Restoring

  /** The first slot that is idle and empty. */
  predicate FirstEmpty(slots: seq<Slot>, i: int) {
    && 0 <= i < |slots| && IsEmpty(slots[i])
    && forall j :: 0 <= j < i ==> !IsEmpty(slots[j])
  }

  predicate IsEmpty(slot: Slot) {
    slot.Slot? && !slot.busy && slot.tokens == 0
  }

  ghost predicate FirstEmptyIs(slots: seq<Slot>, id: Option<int>) {
    exists i :: FirstEmpty(slots, i) && slots[i].id == id
  }

  lemma RestorableExactly(slots: seq<Slot>, id: int)
    requires NoneBroken(slots)
    ensures Restorable(slots) == At(id) <==> FirstEmptyIs(slots, Some(id))
    ensures Restorable(slots) == Raises <==> FirstEmptyIs(slots, None)
  {
    hide Restorable;
    var found := Restorable(slots);
    if !found.Nothing? {
      var i :| FirstIdle(slots, i) && found == FoundIn(slots[i]);
      assert FirstEmpty(slots, i);
      assert forall j :: FirstEmpty(slots, j) ==> j == i;
    }
  }

  /** Models are polled once each. */
  predicate EachOnce(polls: seq<Poll>) {
    forall p, q :: 0 <= p < q < |polls| ==> polls[p].model != polls[q].model
  }

  ghost predicate Tries(loop: Loop, poll: Poll, id: int) {
    FirstEmptyIs(poll.slots, Some(id)) && (poll.model, id) !in loop.warmed && (poll.model, id) !in loop.refusedFor
  }

  /** The restore pass raises over this model: its first empty slot has no id, or the restore says unreadably what it covers. */
  ghost predicate Breaks(loop: Loop, poll: Poll, reply: RestoreReply) {
    FirstEmptyIs(poll.slots, None) || (reply == Restores(Unreadable) && exists id :: Tries(loop, poll, id))
  }

  function EventFor(reply: RestoreReply, model: string, id: int): Event {
    match reply
    case RestoreRaises => RestoreRefused(model, id)
    case NoMatch => RestoreNone(model, id)
    case Restores(_) => RestoreOk(model, id)
  }

  ghost predicate Ends(loop: Loop, polls: seq<Poll>, restore: string -> RestoreReply, e: Event) {
    exists p, id :: 0 <= p < |polls| && Tries(loop, polls[p], id) && e == EventFor(restore(polls[p].model), polls[p].model, id)
  }

  ghost predicate TriedKey(loop: Loop, polls: seq<Poll>, key: Key) {
    exists p :: 0 <= p < |polls| && polls[p].model == key.0 && Tries(loop, polls[p], key.1)
  }

  /** A token count some successful restore of the model covers. */
  ghost predicate Covered(loop: Loop, polls: seq<Poll>, restore: string -> RestoreReply, key: Key) {
    key.1 != 0 && restore(key.0) == Restores(Tokens(key.1)) && exists id :: TriedKey(loop, polls, (key.0, id))
  }

  /** What one round of the pass, or all of it, leaves behind when it does not raise. */
  ghost predicate RestoreLeaves(from: Loop, to: Loop, polls: seq<Poll>, restore: string -> RestoreReply) {
    && (forall key :: key in to.warmed <==> key in from.warmed || (TriedKey(from, polls, key) && restore(key.0).Restores?))
    && (forall key :: key in to.refusedFor <==> key in from.refusedFor || (TriedKey(from, polls, key) && restore(key.0).RestoreRaises?))
    && (forall key :: key in to.seen <==> key in from.seen || Covered(from, polls, restore, key))
    && to.capturedOn == from.capturedOn
  }

  lemma RestoreOneExactly(loop: Loop, poll: Poll, restore: string -> RestoreReply)
    requires NoneBroken(poll.slots)
    ensures var one := RestoreOne(loop, poll, restore(poll.model));
      && (one.aborted <==> Breaks(loop, poll, restore(poll.model)))
      && (!one.aborted ==> RestoreLeaves(loop, one.loop, [poll], restore))
      && (!one.aborted ==> forall e :: e in one.events <==> Ends(loop, [poll], restore, e))
  {
    hide Restorable, FirstEmptyIs;
    var one := RestoreOne(loop, poll, restore(poll.model));
    forall id
      ensures Restorable(poll.slots) == At(id) <==> FirstEmptyIs(poll.slots, Some(id))
    {
      RestorableExactly(poll.slots, id);
    }
    RestorableExactly(poll.slots, 0);
    assert [poll][0] == poll;
    var found := Restorable(poll.slots);
    if found.At? {
      assert Tries(loop, poll, found.slot) <==>
        (poll.model, found.slot) !in loop.warmed && (poll.model, found.slot) !in loop.refusedFor;
      if Tries(loop, poll, found.slot) {
        assert TriedKey(loop, [poll], (poll.model, found.slot));
      }
    }
  }

  /** What is tried of the rest is not changed by the first model's restore. */
  lemma TriesElsewhere(from: Loop, to: Loop, first: Poll, polls: seq<Poll>, restore: string -> RestoreReply, p: nat, id: int)
    requires RestoreLeaves(from, to, [first], restore) && p < |polls| && polls[p].model != first.model
    ensures Tries(to, polls[p], id) <==> Tries(from, polls[p], id)
  {
    hide FirstEmptyIs, Tries;
    var key := (polls[p].model, id);
    assert [first][0] == first;
    assert !TriedKey(from, [first], key);
    assert key in to.warmed <==> key in from.warmed;
    assert key in to.refusedFor <==> key in from.refusedFor;
    TriesBy(from, to, polls[p], id);
  }

  lemma TriesBy(from: Loop, to: Loop, poll: Poll, id: int)
    requires (poll.model, id) in to.warmed <==> (poll.model, id) in from.warmed
    requires (poll.model, id) in to.refusedFor <==> (poll.model, id) in from.refusedFor
    ensures Tries(to, poll, id) <==> Tries(from, poll, id)
  {
  }

  /**
   * The restore pass: one attempt for every model whose first empty slot is neither warmed nor refused, with the event
   * and the bookkeeping the answer calls for. It raises exactly where some model makes it.
   */
  lemma {:induction false} RestoresExactly(loop: Loop, polls: seq<Poll>, restore: string -> RestoreReply, events: seq<Event>)
    requires EachOnce(polls) && AllWhole(polls)
    ensures var t := RestoreFresh(loop, polls, restore, events);
      && (t.aborted <==> exists p :: 0 <= p < |polls| && Breaks(loop, polls[p], restore(polls[p].model)))
      && (!t.aborted ==> RestoreLeaves(loop, t.loop, polls, restore))
      && (!t.aborted ==> forall e :: e in t.events <==> e in events || Ends(loop, polls, restore, e))
    decreases |polls|
  {
    hide RestoreOne, NoneBroken, Tries, RestoreLeaves, Ends, Breaks;
    if polls == [] {
      NothingTried(loop, restore, events);
    } else {
      var first, rest := polls[0], polls[1..];
      assert polls == [first] + rest;
      RestoreOneExactly(loop, first, restore);
      var one := RestoreOne(loop, first, restore(first.model));
      if !one.aborted {
        RestoresExactly(one.loop, rest, restore, events + one.events);
        assert forall p :: 0 <= p < |rest| ==> rest[p] == polls[p + 1];
        forall p, id | 0 <= p < |rest|
          ensures Tries(one.loop, rest[p], id) <==> Tries(loop, rest[p], id)
        {
          TriesElsewhere(loop, one.loop, first, rest, restore, p, id);
        }
        forall p | 0 <= p < |rest|
          ensures Breaks(one.loop, rest[p], restore(rest[p].model)) <==> Breaks(loop, rest[p], restore(rest[p].model))
        {
          BreaksBy(loop, one.loop, rest[p], restore(rest[p].model));
        }
        var t := RestoreFresh(loop, polls, restore, events);
        if !t.aborted {
          LeavesJoin(loop, one.loop, t.loop, first, rest, restore);
          forall e
            ensures e in t.events <==> e in events || Ends(loop, polls, restore, e)
          {
            EndsJoin(loop, one.loop, first, rest, restore, e);
          }
        }
      }
    }
  }

  lemma NothingTried(loop: Loop, restore: string -> RestoreReply, events: seq<Event>)
    ensures RestoreLeaves(loop, loop, [], restore) && forall e :: !Ends(loop, [], restore, e)
  {
  }

  lemma BreaksBy(from: Loop, to: Loop, poll: Poll, reply: RestoreReply)
    requires forall id :: Tries(to, poll, id) <==> Tries(from, poll, id)
    ensures Breaks(to, poll, reply) <==> Breaks(from, poll, reply)
  {
    hide Tries;
  }

  lemma EndsJoin(from: Loop, mid: Loop, first: Poll, rest: seq<Poll>, restore: string -> RestoreReply, e: Event)
    requires forall p, id :: 0 <= p < |rest| ==> (Tries(mid, rest[p], id) <==> Tries(from, rest[p], id))
    ensures Ends(from, [first] + rest, restore, e) <==> Ends(from, [first], restore, e) || Ends(mid, rest, restore, e)
  {
    hide Tries;
    var polls := [first] + rest;
    assert polls[0] == first && [first][0] == first;
    assert forall p :: 0 <= p < |rest| ==> polls[p + 1] == rest[p];
  }

  lemma TriedJoin(from: Loop, mid: Loop, first: Poll, rest: seq<Poll>, key: Key)
    requires forall p, id :: 0 <= p < |rest| ==> (Tries(mid, rest[p], id) <==> Tries(from, rest[p], id))
    ensures TriedKey(from, [first] + rest, key) <==> TriedKey(from, [first], key) || TriedKey(mid, rest, key)
  {
    hide Tries;
    var polls := [first] + rest;
    assert polls[0] == first && [first][0] == first;
    assert forall p :: 0 <= p < |rest| ==> polls[p + 1] == rest[p];
  }

  lemma LeavesJoin(from: Loop, mid: Loop, to: Loop, first: Poll, rest: seq<Poll>, restore: string -> RestoreReply)
    requires RestoreLeaves(from, mid, [first], restore) && RestoreLeaves(mid, to, rest, restore)
    requires forall p, id :: 0 <= p < |rest| ==> (Tries(mid, rest[p], id) <==> Tries(from, rest[p], id))
    ensures RestoreLeaves(from, to, [first] + rest, restore)
  {
    hide TriedKey;
    var polls := [first] + rest;
    forall key
      ensures TriedKey(from, polls, key) <==> TriedKey(from, [first], key) || TriedKey(mid, rest, key)
    {
      TriedJoin(from, mid, first, rest, key);
    }
  }

  predicate IsRestored(e: Event) { e.RestoreOk? }
  predicate IsTurnedDown(e: Event) { e.RestoreRefused? }

  function Count(events: seq<Event>, f: Event -> bool): nat {
    |Filter(events, f)|
  }

  lemma {:induction false} CountOnto(events: seq<Event>, more: seq<Event>, f: Event -> bool)
    requires |more| <= 1
    ensures Count(events + more, f) == Count(events, f) + if more != [] && f(more[0]) then 1 else 0
  {
    if more == [] {
      assert events + more == events;
    } else {
      assert (events + more)[..|events|] == events;
    }
  }

  /** The counters of the restore pass say how many of its events there were. */
  lemma {:induction false} RestoresAreCounted(loop: Loop, polls: seq<Poll>, restore: string -> RestoreReply, events: seq<Event>)
    ensures var t := RestoreFresh(loop, polls, restore, events);
      && t.loop.restored - Count(t.events, IsRestored) == loop.restored - Count(events, IsRestored)
      && t.loop.restoreRefused - Count(t.events, IsTurnedDown) == loop.restoreRefused - Count(events, IsTurnedDown)
    decreases |polls|
  {
    hide Count, Restorable;
    if polls != [] {
      var one := RestoreOne(loop, polls[0], restore(polls[0].model));
      CountOnto(events, one.events, IsRestored);
      CountOnto(events, one.events, IsTurnedDown);
      if !one.aborted {
        RestoresAreCounted(one.loop, polls[1..], restore, events + one.events);
      }
    }
  }

  // Considering

  /** A slot that makes choosing raise. */
  predicate Unusable(model: string, slot: Slot, minTokens: int, seen: set<Key>) {
    if slot.Broken? then !slot.busy
    else !slot.busy && slot.tokens >= minTokens && (model, slot.tokens) !in seen && slot.id.None?
  }

  ghost predicate SomeUnusable(model: string, slots: seq<Slot>, minTokens: int, seen: set<Key>) {
    exists i :: 0 <= i < |slots| && Unusable(model, slots[i], minTokens, seen)
  }

  ghost predicate Offers(model: string, slots: seq<Slot>, minTokens: int, seen: set<Key>, c: Candidate) {
    && c.model == model && (c.model, c.tokens) !in seen && c.tokens >= minTokens
    && exists i :: 0 <= i < |slots| && slots[i] == Slot(Some(c.slot), c.tokens, false)
  }

  lemma {:induction false} SlotsOfferExactly(model: string, slots: seq<Slot>, minTokens: int, seen: set<Key>)
    ensures var found := SlotCandidates(model, slots, minTokens, seen);
      && (found.None? <==> SomeUnusable(model, slots, minTokens, seen))
      && (found.Some? ==> forall c :: c in found.value <==> Offers(model, slots, minTokens, seen, c))
    decreases |slots|
  {
    if slots != [] {
      assert slots == [slots[0]] + slots[1..];
      assert forall i :: 0 <= i < |slots| - 1 ==> slots[1..][i] == slots[i + 1];
      SlotsOfferExactly(model, slots[1..], minTokens, seen);
      var found := SlotCandidates(model, slots, minTokens, seen);
      if found.Some? {
        forall c
          ensures c in found.value <==> Offers(model, slots, minTokens, seen, c)
        {
          assert Offers(model, slots, minTokens, seen, c) <==>
            Offers(model, slots[1..], minTokens, seen, c)
            || (c.model == model && (c.model, c.tokens) !in seen && c.tokens >= minTokens && slots[0] == Slot(Some(c.slot), c.tokens, false));
        }
      }
    }
  }

  lemma {:induction false} PollsOfferExactly(polls: seq<Poll>, minTokens: int, seen: set<Key>)
    ensures var found := AllCandidates(polls, minTokens, seen);
      && (found.None? <==> exists p :: 0 <= p < |polls| && SomeUnusable(polls[p].model, polls[p].slots, minTokens, seen))
      && (found.Some? ==> forall c :: c in found.value <==>
            exists p :: 0 <= p < |polls| && Offers(polls[p].model, polls[p].slots, minTokens, seen, c))
    decreases |polls|
  {
    hide SlotCandidates, Offers, SomeUnusable;
    if polls != [] {
      assert polls == [polls[0]] + polls[1..];
      assert forall p :: 0 <= p < |polls| - 1 ==> polls[1..][p] == polls[p + 1];
      SlotsOfferExactly(polls[0].model, polls[0].slots, minTokens, seen);
      PollsOfferExactly(polls[1..], minTokens, seen);
    }
  }

  lemma {:induction false} AllLoaded(candidates: seq<Candidate>, loaded: set<string>)
    requires forall c :: c in candidates ==> c.model in loaded
    ensures LoadedOnly(candidates, loaded) == candidates
  {
    if candidates != [] {
      AllLoaded(candidates[1..], loaded);
    }
  }

  /**
   * What a tick considers: every idle slot of a polled model with enough tokens and a count not seen, biggest first, and
   * nothing else; choosing raises exactly where a slot cannot be used.
   */
  lemma ConsidersExactly(loop: Loop, input: Input, config: Config)
    ensures var found := ToCapture(loop, input, config);
      && (found.None? <==>
            exists p :: 0 <= p < |input.polls| && SomeUnusable(input.polls[p].model, input.polls[p].slots, config.minTokens, loop.seen))
      && (found.Some? ==>
            && (forall c :: c in found.value <==>
                  exists p :: 0 <= p < |input.polls| && Offers(input.polls[p].model, input.polls[p].slots, config.minTokens, loop.seen, c))
            && forall i, j :: 0 <= i < j < |found.value| ==> found.value[i].tokens >= found.value[j].tokens)
  {
    hide AllCandidates, Offers, SomeUnusable, Sorted, LoadedOnly;
    PollsOfferExactly(input.polls, config.minTokens, loop.seen);
    var all := AllCandidates(input.polls, config.minTokens, loop.seen);
    if all.Some? {
      SortedIsOrdered(all.value, BiggestFirst);
      SortedIsPermutation(all.value, BiggestFirst);
      SameMembers(Sorted(all.value, BiggestFirst), all.value);
      forall c | c in all.value
        ensures c.model in Loaded(input.polls)
      {
        var p :| 0 <= p < |input.polls| && Offers(input.polls[p].model, input.polls[p].slots, config.minTokens, loop.seen, c);
        OffersOwn(input.polls[p].model, input.polls[p].slots, config.minTokens, loop.seen, c);
      }
      AllLoaded(Sorted(all.value, BiggestFirst), Loaded(input.polls));
    }
  }

  lemma OffersOwn(model: string, slots: seq<Slot>, minTokens: int, seen: set<Key>, c: Candidate)
    requires Offers(model, slots, minTokens, seen, c)
    ensures c.model == model
  {
  }

  // The stages of a tick

  /** Before anything is saved: what was forgotten, then what was restored, and when a tick does not get further. */
  lemma StagesExactly(loop: Loop, input: Input, config: Config)
    requires EachOnce(input.polls)
    ensures
      var cleared := loop.(warmed := StillWarmed(loop.warmed, input.polls).0);
      var ready := Restored(loop, input, config);
      var tried := if config.restorer then input.polls else [];
      && (ready.aborted <==>
            || !input.reachable || !AllWhole(input.polls)
            || exists p :: 0 <= p < |tried| && Breaks(cleared, tried[p], input.restore(tried[p].model)))
      && (!ready.aborted ==>
            && RestoreLeaves(cleared, ready.loop, tried, input.restore)
            && (forall model :: model in ready.loop.previous <==> exists p :: 0 <= p < |input.polls| && input.polls[p].model == model)
            && forall e :: e in ready.events <==> Ends(cleared, tried, input.restore, e))
  {
    hide StillWarmed, RestoreFresh, RestoreLeaves, Ends, Breaks, AllWhole;
    ForgetsExactly(loop.warmed, input.polls, "", 0);
    var cleared := loop.(warmed := StillWarmed(loop.warmed, input.polls).0);
    NothingTried(cleared, input.restore, []);
    if input.reachable && AllWhole(input.polls) && config.restorer {
      RestoresExactly(cleared, input.polls, input.restore, []);
    }
    var ready := Restored(loop, input, config);
    if !ready.aborted {
      var after := if config.restorer then RestoreFresh(cleared, input.polls, input.restore, []).loop else cleared;
      PreviousIsExtra(cleared, after, ready.loop, if config.restorer then input.polls else [], input.restore);
    }
  }

  lemma PreviousIsExtra(from: Loop, to: Loop, same: Loop, polls: seq<Poll>, restore: string -> RestoreReply)
    requires RestoreLeaves(from, to, polls, restore) && same == to.(previous := same.previous)
    ensures RestoreLeaves(from, same, polls, restore)
  {
  }

  predicate IsSaved(e: Event) { e.Saved? }
  predicate IsParked(e: Event) { e.Parked? }
  predicate IsSkipped(e: Event) { e.Skipped? }
  predicate IsRefused(e: Event) { e.Parked? || e.SaveRefused? }
  predicate IsAdmitted(e: Event) { e.Saved? && e.admitted }

  lemma {:induction false} CountOne(events: seq<Event>, e: Event, f: Event -> bool)
    ensures Count([e] + events, f) == Count(events, f) + if f(e) then 1 else 0
  {
    var all := [e] + events;
    if events != [] {
      assert all[..|all| - 1] == [e] + events[..|events| - 1];
      CountOne(events[..|events| - 1], e, f);
    } else {
      assert all == [e] && all[..0] == [];
    }
  }

  /** A count that is not tried again: skipped, parked or saved. */
  ghost predicate Settles(events: seq<Event>, key: Key) {
    exists e :: e in events && (e.Saved? || e.Parked? || e.Skipped?) && (e.model, e.tokens) == key
  }

  /** What saving leaves behind, in terms of its events. */
  ghost predicate SavingLeaves(from: Loop, to: Loop, events: seq<Event>) {
    && to.warmed == from.warmed && to.previous == from.previous
    && to.restored == from.restored && to.restoreRefused == from.restoreRefused
    && (forall key :: key in to.seen <==> key in from.seen || Settles(events, key))
    && (forall key :: key in to.refusedFor <==> key in from.refusedFor && !AdmittedFor(events, key.0))
    && to.captured == from.captured + Count(events, IsSaved) && to.parked == from.parked + Count(events, IsParked)
    && to.skipped == from.skipped + Count(events, IsSkipped) && to.refused == from.refused + Count(events, IsRefused)
    && to.admitted == from.admitted + Count(events, IsAdmitted)
  }

  lemma SavesOne(loop: Loop, c: Candidate, reply: SaveReply, admitter: bool)
    ensures var next := CaptureOne(loop, c, reply, admitter);
      next.Some? ==> SavingLeaves(loop, next.value.0, [next.value.1])
  {
    hide WorthCapturing, Filter;
    var next := CaptureOne(loop, c, reply, admitter);
    if next.Some? {
      var e := next.value.1;
      var none: seq<Event> := [];
      CountOne(none, e, IsSaved);
      CountOne(none, e, IsParked);
      CountOne(none, e, IsSkipped);
      CountOne(none, e, IsRefused);
      CountOne(none, e, IsAdmitted);
      CountNone();
      assert [e] + none == [e] && e in [e];
    }
  }

  lemma CountNone()
    ensures forall f :: Count([], f) == 0
  {
  }

  lemma SavingJoin(from: Loop, mid: Loop, to: Loop, e: Event, rest: seq<Event>)
    requires SavingLeaves(from, mid, [e]) && SavingLeaves(mid, to, rest)
    ensures SavingLeaves(from, to, [e] + rest)
  {
    hide Count;
    var none: seq<Event> := [];
    assert [e] + none == [e];
    CountOne(none, e, IsSaved);
    CountOne(rest, e, IsSaved);
    CountOne(none, e, IsParked);
    CountOne(rest, e, IsParked);
    CountOne(none, e, IsSkipped);
    CountOne(rest, e, IsSkipped);
    CountOne(none, e, IsRefused);
    CountOne(rest, e, IsRefused);
    CountOne(none, e, IsAdmitted);
    CountOne(rest, e, IsAdmitted);
    forall key
      ensures Settles([e] + rest, key) <==> Settles([e], key) || Settles(rest, key)
      ensures AdmittedFor([e] + rest, key.0) <==> AdmittedFor([e], key.0) || AdmittedFor(rest, key.0)
    {
      assert forall d :: d in [e] + rest <==> d in [e] || d in rest;
    }
    CountNone();
  }

  lemma {:induction false} SavesLeave(loop: Loop, candidates: seq<Candidate>, k: nat, save: nat -> SaveReply, admitter: bool, events: seq<Event>)
    requires k <= |candidates|
    ensures var t := CaptureAll(loop, candidates, k, save, admitter, events);
      events <= t.events && SavingLeaves(loop, t.loop, t.events[|events|..])
    decreases |candidates| - k
  {
    hide CaptureOne, SavingLeaves;
    NothingSavedLeaves(loop);
    var t := CaptureAll(loop, candidates, k, save, admitter, events);
    assert events[|events|..] == [];
    if k < |candidates| {
      var next := CaptureOne(loop, candidates[k], save(k), admitter);
      SavesOne(loop, candidates[k], save(k), admitter);
      if next.Some? {
        var (mid, e) := next.value;
        assert next.value == (mid, e);
        assert (events + [e])[|events|..] == [e];
        if !(e.Saved? && save(k).SavesUnreadably?) {
          SavesLeave(mid, candidates, k + 1, save, admitter, events + [e]);
          assert t.events[|events|..] == [e] + t.events[|events| + 1..];
          SavingJoin(loop, mid, t.loop, e, t.events[|events| + 1..]);
        }
      }
    }
  }

  lemma NothingSavedLeaves(loop: Loop)
    ensures SavingLeaves(loop, loop, [])
  {
    CountNone();
  }

  lemma {:induction false} StopsExactly(
      start: Loop, loop: Loop, candidates: seq<Candidate>, k: nat, save: nat -> SaveReply, admitter: bool, events: seq<Event>)
    requires k <= |candidates| && Reached(start, candidates, save, k) && HistoryIs(start, loop, candidates, save, k)
    ensures CaptureAll(loop, candidates, k, save, admitter, events).aborted <==> !Reached(start, candidates, save, |candidates|)
    decreases |candidates| - k
  {
    hide CaptureOne, SavesAt, IsWorth, Remembered, WorthCapturing, SlotHistory, HistoryIs;
    if k < |candidates| {
      OneIsTraced(start, loop, candidates, k, save, admitter);
      WorthAndAnswered(start, candidates, save, k);
      var next := CaptureOne(loop, candidates[k], save(k), admitter);
      if GoesOn(start, candidates, save, k) {
        StopsExactly(start, next.value.0, candidates, k + 1, save, admitter, events + [next.value.1]);
      }
    }
  }

  /**
   * What a tick saves, candidate by candidate: each one reached is skipped, parked, refused or saved exactly as its
   * count, its slot's last capture and the answer to its save say, and nothing else happens. What is left behind is
   * what these events say, the tick raises exactly when not all candidates get through, and the slots remember their
   * last captures.
   */
  lemma SavesExactly(loop: Loop, input: Input, config: Config) returns (n: nat)
    requires !Restored(loop, input, config).aborted && ToCapture(Restored(loop, input, config).loop, input, config).Some?
    ensures
      var ready := Restored(loop, input, config);
      var candidates := ToCapture(ready.loop, input, config).value;
      var t := Tick(loop, input, config);
      && Traced(ready.loop, candidates, input.save, config.admitter, ready.events, t.events, n)
      && HistoryIs(ready.loop, t.loop, candidates, input.save, n)
      && (forall k :: 0 <= k < |candidates| ==>
            (k < n <==> Reached(ready.loop, candidates, input.save, k) && candidates[k].tokens > 0))
      && (t.aborted <==> !Reached(ready.loop, candidates, input.save, |candidates|))
      && ready.events <= t.events && SavingLeaves(ready.loop, t.loop, t.events[|ready.events|..])
  {
    hide Restored, Tick, ToCapture, CaptureAll, SavingLeaves, Traced, HistoryIs, Reached;
    var ready := Restored(loop, input, config);
    var candidates := ToCapture(ready.loop, input, config).value;
    TickIs(loop, input, config);
    TraceStarts(ready.loop, candidates, input.save, config.admitter, ready.events);
    n := CaptureAllTrace(ready.loop, ready.loop, candidates, 0, input.save, config.admitter, ready.events, ready.events);
    StopsExactly(ready.loop, ready.loop, candidates, 0, input.save, config.admitter, ready.events);
    SavesLeave(ready.loop, candidates, 0, input.save, config.admitter, ready.events);
  }

  /** A tick that does not get as far as saving ends with what it restored. */
  lemma EndsEarly(loop: Loop, input: Input, config: Config)
    ensures
      var ready := Restored(loop, input, config);
      ready.aborted || ToCapture(ready.loop, input, config).None? ==>
        Tick(loop, input, config) == ready.(aborted := true)
  {
    hide Restored, ToCapture;
  }
}
