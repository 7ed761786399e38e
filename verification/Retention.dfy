/** Which stored prefixes survive a byte budget: `kv_rosetta/retention.py`. Times are exact reals. */
module Retention {
  import opened Wrappers
  import opened Sorting
  import opened Sequences

  datatype Entry = Entry(digest: string, nbytes: int, lastUsed: real, pinned: bool)

  /** What a plan says of one entry. */
  datatype Why = IsPinned | Fits | NoRoom(nbytes: int, free: int)

  datatype Plan = Plan(keep: seq<string>, evict: seq<string>, keptBytes: int, budget: int, reasons: map<string, Why>)

  datatype RetentionError =
    | NegativeBudget | BadEntry(index: nat) | DigestTwice(index: nat) | PinsDoNotFit(need: int)
    | BadCandidate | LargerThanBudget | NotAdmitted

  /** What `Entry.validate` finds nothing wrong with. */
  predicate ValidEntry(e: Entry) {
    |e.digest| == 64 && e.nbytes > 0
  }

  predicate MoreRecent(a: Entry, b: Entry) {
    a.lastUsed > b.lastUsed || (a.lastUsed == b.lastUsed && StringLe(a.digest, b.digest))
  }

  predicate Pinned(e: Entry) { e.pinned }
  predicate Unpinned(e: Entry) { !e.pinned }

  function Digests(entries: seq<Entry>): (d: seq<string>)
    ensures |d| == |entries| && forall i :: 0 <= i < |entries| ==> d[i] == entries[i].digest
  {
    seq(|entries|, i requires 0 <= i < |entries| => entries[i].digest)
  }

  function Bytes(entries: seq<Entry>): int {
    if entries == [] then 0 else Bytes(entries[..|entries| - 1]) + entries[|entries| - 1].nbytes
  }

  /** Room is handed out in order; what does not fit is passed over and the next one tried. */
  datatype Choice = Choice(keep: seq<Entry>, evict: seq<Entry>, used: int)

  function Choose(entries: seq<Entry>, used: int, budget: int): Choice {
    if entries == [] then Choice([], [], used) else
    var before, e := Choose(entries[..|entries| - 1], used, budget), entries[|entries| - 1];
    if before.used + e.nbytes <= budget then before.(keep := before.keep + [e], used := before.used + e.nbytes)
    else before.(evict := before.evict + [e])
  }

  function ByRecency(entries: seq<Entry>): seq<Entry> {
    Sorted(Filter(entries, Unpinned), MoreRecent)
  }

  function ChoiceOf(entries: seq<Entry>, budget: int): Choice {
    Choose(ByRecency(entries), Bytes(Filter(entries, Pinned)), budget)
  }

  predicate RowSound(entries: seq<Entry>, i: nat)
    requires i < |entries|
  {
    ValidEntry(entries[i]) && forall j :: 0 <= j < i ==> entries[j].digest != entries[i].digest
  }

  predicate AllSound(entries: seq<Entry>) {
    forall i :: 0 <= i < |entries| ==> RowSound(entries, i)
  }

  /** Exactly the inputs that can be planned. */
  predicate Plannable(entries: seq<Entry>, budget: int) {
    budget >= 0 && AllSound(entries) && Bytes(Filter(entries, Pinned)) <= budget
  }

  /** The plan for inputs that can be planned. */
  function PlanOf(entries: seq<Entry>, budget: int): Plan {
    var choice := ChoiceOf(entries, budget);
    var pinned := Filter(entries, Pinned);
    Plan(Digests(pinned) + Digests(choice.keep), Digests(choice.evict), choice.used, budget,
         WhyChosen(ByRecency(entries), Bytes(pinned), budget, WhyPinned(pinned)))
  }

  function WhyPinned(pinned: seq<Entry>): map<string, Why> {
    if pinned == [] then map[] else WhyPinned(pinned[..|pinned| - 1])[pinned[|pinned| - 1].digest := IsPinned]
  }

  function WhyChosen(ordered: seq<Entry>, used: int, budget: int, reasons: map<string, Why>): map<string, Why> {
    if ordered == [] then reasons else
    var front, e := ordered[..|ordered| - 1], ordered[|ordered| - 1];
    var before := Choose(front, used, budget);
    WhyChosen(front, used, budget, reasons)[e.digest :=
      if before.used + e.nbytes <= budget then Fits else NoRoom(e.nbytes, budget - before.used)]
  }

  /** `plan_retention` */
  method PlanRetention(entries: seq<Entry>, budget: int) returns (r: Result<Plan, RetentionError>)
    ensures r.Success? <==> Plannable(entries, budget)
    ensures r.Success? ==> r.value == PlanOf(entries, budget)
    ensures r == Failure(NegativeBudget) <==> budget < 0
    ensures r.Failure? ==> r.error.NegativeBudget? || r.error.BadEntry? || r.error.DigestTwice? || r.error.PinsDoNotFit?
    ensures r.Failure? && (r.error.BadEntry? || r.error.DigestTwice?) ==> FirstUnsoundIs(entries, r.error)
    ensures r.Failure? && r.error.PinsDoNotFit? ==> AllSound(entries) && r.error.need == Bytes(Filter(entries, Pinned)) > budget
  {
    hide RowSound, Choose, ByRecency, WhyChosen, WhyPinned;
    if budget < 0 {
      return Failure(NegativeBudget);
    }
    var bad := FirstUnsound(entries);
    if bad.Some? {
      return Failure(bad.value);
    }
    var pinned, unpinned := Split(entries);
    var pinnedBytes := SumBytes(pinned);
    if pinnedBytes > budget {
      return Failure(PinsDoNotFit(pinnedBytes));
    }
    var reasons := PinReasons(pinned);
    RecencyIs(entries, unpinned);
    var keep, evict, used;
    keep, evict, used, reasons := HandOut(Sorted(unpinned, MoreRecent), pinnedBytes, budget, reasons);
    return Success(Plan(Digests(pinned) + Digests(keep), Digests(evict), used, budget, reasons));
  }

  lemma {:induction false} RecencyIs(entries: seq<Entry>, unpinned: seq<Entry>)
    requires unpinned == Filter(entries, Unpinned)
    ensures ByRecency(entries) == Sorted(unpinned, MoreRecent)
  {
  }

  /** The error names the first entry that is no entry, or repeats the digest of an earlier one, and says which. */
  predicate FirstUnsoundIs(entries: seq<Entry>, error: RetentionError)
    requires error.BadEntry? || error.DigestTwice?
  {
    && error.index < |entries| && (forall i :: 0 <= i < error.index ==> RowSound(entries, i))
    && (error.BadEntry? <==> |entries[error.index].digest| != 64 || entries[error.index].nbytes <= 0)
    && (error.DigestTwice? ==> exists j :: 0 <= j < error.index && entries[j].digest == entries[error.index].digest)
  }

  predicate IsPin(e: Entry) {
    e.pinned
  }

  /** What can be planned, on the fields: a budget, entries of some size under digests of full length, no two alike, and pins that fit. */
  lemma PlannableExactly(entries: seq<Entry>, budget: int)
    ensures Plannable(entries, budget) <==>
      && budget >= 0
      && (forall i :: 0 <= i < |entries| ==> |entries[i].digest| == 64 && entries[i].nbytes > 0)
      && (forall i, j :: 0 <= i < j < |entries| ==> entries[i].digest != entries[j].digest)
      && Bytes(Filter(entries, IsPin)) <= budget
  {
    PinsAreFiltered(entries);
    assert forall i :: 0 <= i < |entries| ==> (RowSound(entries, i) <==>
      |entries[i].digest| == 64 && entries[i].nbytes > 0 && forall j :: 0 <= j < i ==> entries[j].digest != entries[i].digest);
  }

  lemma {:induction false} PinsAreFiltered(entries: seq<Entry>)
    ensures Filter(entries, IsPin) == Filter(entries, Pinned)
  {
    if entries != [] {
      PinsAreFiltered(entries[..|entries| - 1]);
    }
  }

  method FirstUnsound(entries: seq<Entry>) returns (bad: Option<RetentionError>)
    ensures bad.None? <==> AllSound(entries)
    ensures bad.Some? ==> bad.value.BadEntry? || bad.value.DigestTwice?
    ensures bad.Some? ==> FirstUnsoundIs(entries, bad.value)
  {
    var seen: set<string> := {};
    for index := 0 to |entries|
      invariant forall d :: d in seen <==> exists i :: 0 <= i < index && entries[i].digest == d
      invariant forall i :: 0 <= i < index ==> RowSound(entries, i)
    {
      if !ValidEntry(entries[index]) {
        assert !RowSound(entries, index);
        return Some(BadEntry(index));
      }
      if entries[index].digest in seen {
        assert !RowSound(entries, index);
        return Some(DigestTwice(index));
      }
      assert RowSound(entries, index);
      seen := seen + {entries[index].digest};
    }
    return None;
  }

  method Split(entries: seq<Entry>) returns (pinned: seq<Entry>, unpinned: seq<Entry>)
    ensures pinned == Filter(entries, Pinned) && unpinned == Filter(entries, Unpinned)
  {
    pinned, unpinned := [], [];
    for i := 0 to |entries|
      invariant pinned == Filter(entries[..i], Pinned) && unpinned == Filter(entries[..i], Unpinned)
    {
      assert entries[..i + 1][..i] == entries[..i];
      if entries[i].pinned {
        pinned := pinned + [entries[i]];
      } else {
        unpinned := unpinned + [entries[i]];
      }
    }
    assert entries[..|entries|] == entries;
  }

  method SumBytes(entries: seq<Entry>) returns (sum: int)
    ensures sum == Bytes(entries)
  {
    sum := 0;
    for i := 0 to |entries|
      invariant sum == Bytes(entries[..i])
    {
      assert entries[..i + 1][..i] == entries[..i];
      sum := sum + entries[i].nbytes;
    }
    assert entries[..|entries|] == entries;
  }

  method PinReasons(pinned: seq<Entry>) returns (reasons: map<string, Why>)
    ensures reasons == WhyPinned(pinned)
  {
    reasons := map[];
    for i := 0 to |pinned|
      invariant reasons == WhyPinned(pinned[..i])
    {
      assert pinned[..i + 1][..i] == pinned[..i];
      reasons := reasons[pinned[i].digest := IsPinned];
    }
    assert pinned[..|pinned|] == pinned;
  }

  /** The loop of `plan_retention` over the unpinned entries. */
  method HandOut(ordered: seq<Entry>, pinnedBytes: int, budget: int, pinReasons: map<string, Why>)
    returns (keep: seq<Entry>, evict: seq<Entry>, used: int, reasons: map<string, Why>)
    ensures Choice(keep, evict, used) == Choose(ordered, pinnedBytes, budget)
    ensures reasons == WhyChosen(ordered, pinnedBytes, budget, pinReasons)
  {
    keep, evict, used, reasons := [], [], pinnedBytes, pinReasons;
    for i := 0 to |ordered|
      invariant Choice(keep, evict, used) == Choose(ordered[..i], pinnedBytes, budget)
      invariant reasons == WhyChosen(ordered[..i], pinnedBytes, budget, pinReasons)
    {
      assert ordered[..i + 1][..i] == ordered[..i];
      var entry := ordered[i];
      if used + entry.nbytes <= budget {
        keep := keep + [entry];
        reasons := reasons[entry.digest := Fits];
        used := used + entry.nbytes;
      } else {
        evict := evict + [entry];
        reasons := reasons[entry.digest := NoRoom(entry.nbytes, budget - used)];
      }
    }
    assert ordered[..|ordered|] == ordered;
  }

  /** `admit_or_refuse`: a plan that is returned keeps the candidate. */
  method AdmitOrRefuse(entries: seq<Entry>, candidate: Entry, budget: int) returns (r: Result<Plan, RetentionError>)
    ensures r.Success? <==>
      Plannable(entries + [candidate], budget) && candidate.digest in PlanOf(entries + [candidate], budget).keep
    ensures r.Success? ==> r.value == PlanOf(entries + [candidate], budget)
    ensures r == Failure(BadCandidate) <==> !ValidEntry(candidate)
    ensures r == Failure(LargerThanBudget) <==> ValidEntry(candidate) && candidate.nbytes > budget
    ensures r == Failure(NotAdmitted) <==>
      && ValidEntry(candidate) && candidate.nbytes <= budget
      && Plannable(entries + [candidate], budget) && candidate.digest !in PlanOf(entries + [candidate], budget).keep
  {
    hide Filter, ChoiceOf;
    assert RowSound(entries + [candidate], |entries|) ==> ValidEntry(candidate);
    if !ValidEntry(candidate) {
      return Failure(BadCandidate);
    }
    if candidate.nbytes > budget {
      TooLargeIsNotKept(entries + [candidate], candidate, budget);
      return Failure(LargerThanBudget);
    }
    var plan := PlanRetention(entries + [candidate], budget);
    if plan.Failure? {
      return Failure(plan.error);
    }
    if candidate.digest !in plan.value.keep {
      return Failure(NotAdmitted);
    }
    return plan;
  }

  // The greedy pass

  predicate AllPositive(entries: seq<Entry>) {
    forall i :: 0 <= i < |entries| ==> entries[i].nbytes > 0
  }

  /** What is kept is paid for and within budget; what is evicted is larger than the room left at the end. */
  lemma {:induction false} ChoosePays(entries: seq<Entry>, used: int, budget: int)
    requires used <= budget && AllPositive(entries)
    ensures var c := Choose(entries, used, budget);
      && c.used == used + Bytes(c.keep) && used <= c.used <= budget
      && AllPositive(c.keep)
      && forall e :: e in c.evict ==> e.nbytes > budget - c.used
  {
    if entries != [] {
      var front, x := entries[..|entries| - 1], entries[|entries| - 1];
      ChoosePays(front, used, budget);
      var before, c := Choose(front, used, budget), Choose(entries, used, budget);
      assert c.keep == before.keep || (c.keep[..|c.keep| - 1] == before.keep && c.keep == before.keep + [x]);
    }
  }

  lemma {:induction false} ChoosePartitions(entries: seq<Entry>, used: int, budget: int)
    ensures var c := Choose(entries, used, budget); multiset(c.keep) + multiset(c.evict) == multiset(entries)
  {
    if entries != [] {
      ChoosePartitions(entries[..|entries| - 1], used, budget);
      assert entries == entries[..|entries| - 1] + [entries[|entries| - 1]];
    }
  }

  lemma {:induction false} ChosenMembers(entries: seq<Entry>, used: int, budget: int)
    ensures var c := Choose(entries, used, budget);
      forall e :: e in entries <==> e in c.keep || e in c.evict
  {
    var c := Choose(entries, used, budget);
    ChoosePartitions(entries, used, budget);
    forall e
      ensures e in entries <==> e in c.keep || e in c.evict
    {
      assert e in entries <==> e in multiset(entries);
      assert e in c.keep <==> e in multiset(c.keep);
      assert e in c.evict <==> e in multiset(c.evict);
      assert multiset(entries)[e] == multiset(c.keep)[e] + multiset(c.evict)[e];
    }
  }

  predicate NoDuplicates(entries: seq<Entry>) {
    forall i, j :: 0 <= i < j < |entries| ==> entries[i] != entries[j]
  }

  /** An entry passed over is strictly larger than any that comes after it and is kept. */
  lemma {:induction false} PassedOverIsLarger(entries: seq<Entry>, used: int, budget: int, e: Entry, f: Entry)
    requires used <= budget && AllPositive(entries)
    requires Ordered(entries, MoreRecent) && NoTies(entries, MoreRecent) && NoDuplicates(entries)
    requires e in Choose(entries, used, budget).evict && f in Choose(entries, used, budget).keep && MoreRecent(e, f)
    ensures e.nbytes > f.nbytes
  {
    hide MoreRecent;
    var front, x := entries[..|entries| - 1], entries[|entries| - 1];
    var before := Choose(front, used, budget);
    ChoosePays(front, used, budget);
    ChosenMembers(front, used, budget);
    if e in before.evict && f in before.keep {
      PassedOverIsLarger(front, used, budget, e, f);
    } else if e in before.evict {
      assert f == x;
    } else {
      assert false;
    }
  }

  lemma FrontPositive(entries: seq<Entry>)
    requires AllPositive(entries) && entries != []
    ensures AllPositive(entries[..|entries| - 1]) && entries[|entries| - 1].nbytes > 0
  {
  }

  /** When everything fits, nothing is evicted, in whatever order room is handed out. */
  lemma {:induction false} EverythingFits(entries: seq<Entry>, used: int, budget: int)
    requires AllPositive(entries) && used + Bytes(entries) <= budget
    ensures Choose(entries, used, budget) == Choice(entries, [], used + Bytes(entries))
  {
    if entries != [] {
      hide AllPositive;
      var front, x := entries[..|entries| - 1], entries[|entries| - 1];
      FrontPositive(entries);
      assert x.nbytes > 0 && Bytes(entries) == Bytes(front) + x.nbytes;
      EverythingFits(front, used, budget);
      assert Choose(entries, used, budget) == Choice(front + [x], [], used + Bytes(front) + x.nbytes);
      assert entries == front + [x];
    }
  }

  // Rearrangements

  lemma {:induction false} SameFilter(s: seq<Entry>, t: seq<Entry>, keep: Entry -> bool)
    requires multiset(s) == multiset(t)
    ensures multiset(Filter(s, keep)) == multiset(Filter(t, keep))
  {
    hide Filter;
    var a, b := multiset(Filter(s, keep)), multiset(Filter(t, keep));
    forall x: Entry
      ensures a[x] == b[x]
    {
      FilterCounts(s, keep, x);
      FilterCounts(t, keep, x);
    }
  }

  lemma {:induction false} FiltersPartition(entries: seq<Entry>)
    ensures multiset(Filter(entries, Pinned)) + multiset(Filter(entries, Unpinned)) == multiset(entries)
  {
    forall x
      ensures (multiset(Filter(entries, Pinned)) + multiset(Filter(entries, Unpinned)))[x] == multiset(entries)[x]
    {
      FilterCounts(entries, Pinned, x);
      FilterCounts(entries, Unpinned, x);
    }
  }

  lemma Without(s: seq<Entry>, x: Entry) returns (left: seq<Entry>, right: seq<Entry>)
    requires x in s
    ensures s == left + [x] + right && multiset(left + right) == multiset(s) - multiset{x}
  {
    var i :| 0 <= i < |s| && s[i] == x;
    left, right := s[..i], s[i + 1..];
  }

  /** The last element of one arrangement, found and taken out of the other. */
  lemma TakeOut(a: seq<Entry>, b: seq<Entry>) returns (front: seq<Entry>, x: Entry, left: seq<Entry>, right: seq<Entry>)
    requires a != [] && multiset(a) == multiset(b)
    ensures a == front + [x] && b == left + [x] + right && multiset(front) == multiset(left + right)
  {
    front, x := a[..|a| - 1], a[|a| - 1];
    assert a == front + [x];
    assert x in multiset(a) && x in multiset(b);
    left, right := Without(b, x);
  }

  lemma {:induction false} BytesSplit(a: seq<Entry>, b: seq<Entry>)
    ensures Bytes(a + b) == Bytes(a) + Bytes(b)
  {
    if b == [] {
      assert a + b == a;
    } else {
      assert (a + b)[..|a + b| - 1] == a + b[..|b| - 1];
      BytesSplit(a, b[..|b| - 1]);
    }
  }

  lemma {:induction false} BytesOfPermutation(a: seq<Entry>, b: seq<Entry>)
    requires multiset(a) == multiset(b)
    ensures Bytes(a) == Bytes(b)
    decreases |a|
  {
    hide Bytes;
    if a == [] {
      assert |multiset(b)| == 0 && b == [];
    } else {
      var front, x, left, right := TakeOut(a, b);
      BytesOfPermutation(front, left + right);
      BytesSplit(front, [x]);
      BytesSplit(left, right);
      BytesSplit(left + [x], right);
      BytesSplit(left, [x]);
    }
  }

  lemma DigestsSplit(a: seq<Entry>, b: seq<Entry>)
    ensures Digests(a + b) == Digests(a) + Digests(b)
  {
  }

  lemma {:induction false} DigestsOfPermutation(a: seq<Entry>, b: seq<Entry>)
    requires multiset(a) == multiset(b)
    ensures multiset(Digests(a)) == multiset(Digests(b))
    decreases |a|
  {
    hide Digests;
    if a == [] {
      assert |multiset(b)| == 0 && b == [];
    } else {
      var front, x, left, right := TakeOut(a, b);
      DigestsOfPermutation(front, left + right);
      DigestsSplit(front, [x]);
      DigestsSplit(left, right);
      DigestsSplit(left + [x], right);
      DigestsSplit(left, [x]);
    }
  }

  // Plans

  lemma RecencyIsTotal()
    ensures TotalPreorder(MoreRecent)
  {
    forall x: Entry, y: Entry
      ensures MoreRecent(x, y) || MoreRecent(y, x)
    {
      LexTotal(Codes(x.digest), Codes(y.digest));
    }
    forall x: Entry, y: Entry, z: Entry | MoreRecent(x, y) && MoreRecent(y, z)
      ensures MoreRecent(x, z)
    {
      if StringLe(x.digest, y.digest) && StringLe(y.digest, z.digest) {
        LexTransitive(Codes(x.digest), Codes(y.digest), Codes(z.digest));
      }
    }
  }

  /** Facts about the unpinned entries in the order room is handed out. */
  lemma {:induction false} RecencyFacts(entries: seq<Entry>)
    requires AllSound(entries)
    ensures var order := ByRecency(entries);
      && Ordered(order, MoreRecent) && NoTies(order, MoreRecent) && NoDuplicates(order) && AllPositive(order)
      && multiset(order) == multiset(Filter(entries, Unpinned))
      && (forall e :: e in order <==> e in entries && !e.pinned)
  {
    hide MoreRecent, Sorted, Filter;
    var order, unpinned := ByRecency(entries), Filter(entries, Unpinned);
    RecencyIsTotal();
    SortedIsOrdered(unpinned, MoreRecent);
    SortedIsPermutation(unpinned, MoreRecent);
    SameMembers(order, unpinned);
    forall e
      ensures e in order <==> e in entries && !e.pinned
    {
      FilterIn(entries, Unpinned, e);
    }
    forall i | 0 <= i < |order|
      ensures order[i].nbytes > 0
    {
      assert order[i] in order;
      var k :| 0 <= k < |entries| && entries[k] == order[i];
      assert RowSound(entries, k);
    }
    forall x, y | x in order && y in order && MoreRecent(x, y) && MoreRecent(y, x)
      ensures x == y
    {
      SameDigestSameEntry(entries, x, y);
    }
    NoRepeats(entries, order);
  }

  lemma SameDigestSameEntry(entries: seq<Entry>, x: Entry, y: Entry)
    requires AllSound(entries) && x in entries && y in entries
    ensures x.digest == y.digest ==> x == y
    ensures MoreRecent(x, y) && MoreRecent(y, x) ==> x == y
  {
    if x.digest == y.digest {
      var i :| 0 <= i < |entries| && entries[i] == x;
      var j :| 0 <= j < |entries| && entries[j] == y;
      assert RowSound(entries, i) && RowSound(entries, j);
    }
    if MoreRecent(x, y) && MoreRecent(y, x) {
      StringAntisymmetric(x.digest, y.digest);
    }
  }

  lemma SoundCounts(entries: seq<Entry>, x: Entry)
    requires AllSound(entries)
    ensures multiset(entries)[x] <= 1
  {
    if x in entries {
      var left, right := Without(entries, x);
      var i := |left|;
      assert entries[i] == x && RowSound(entries, i);
      forall k | 0 <= k < i
        ensures left[k] != x
      {
        assert left[k] == entries[k];
      }
      assert x !in left;
      forall k | 0 <= k < |right|
        ensures right[k] != x
      {
        assert right[k] == entries[i + 1 + k] && RowSound(entries, i + 1 + k);
      }
      assert x !in right;
      assert x !in multiset(left + right);
    } else {
      assert x !in multiset(entries);
    }
  }

  lemma {:induction false} NoRepeats(entries: seq<Entry>, order: seq<Entry>)
    requires AllSound(entries) && multiset(order) == multiset(Filter(entries, Unpinned))
    ensures NoDuplicates(order)
  {
    hide AllSound, Filter;
    forall i, j | 0 <= i < j < |order|
      ensures order[i] != order[j]
    {
      if order[i] == order[j] {
        TwiceIn(order, i, j);
        FilterCounts(entries, Unpinned, order[i]);
        SoundCounts(entries, order[i]);
        assert false;
      }
    }
  }

  lemma {:induction false} ChoicePays(entries: seq<Entry>, budget: int)
    requires Plannable(entries, budget)
    ensures var pinned, choice := Filter(entries, Pinned), ChoiceOf(entries, budget);
      && choice.used == Bytes(pinned + choice.keep) && choice.used <= budget
      && forall e :: e in choice.evict ==> e.nbytes > budget - choice.used
  {
    hide Filter, Choose, RowSound, MoreRecent;
    var pinned := Filter(entries, Pinned);
    RecencyFacts(entries);
    ChoosePays(ByRecency(entries), Bytes(pinned), budget);
    BytesSplit(pinned, ChoiceOf(entries, budget).keep);
  }

  lemma {:induction false} ChoicePartitions(entries: seq<Entry>, budget: int)
    requires AllSound(entries)
    ensures var choice := ChoiceOf(entries, budget);
      multiset(Filter(entries, Pinned) + choice.keep) + multiset(choice.evict) == multiset(entries)
  {
    hide Filter, Choose, RowSound, MoreRecent, ByRecency;
    RecencyFacts(entries);
    ChoosePartitions(ByRecency(entries), Bytes(Filter(entries, Pinned)), budget);
    FiltersPartition(entries);
  }

  lemma DigestIn(entries: seq<Entry>, e: Entry)
    requires e in entries
    ensures e.digest in Digests(entries)
  {
    var k :| 0 <= k < |entries| && entries[k] == e;
    assert Digests(entries)[k] == e.digest;
  }

  lemma DigestOf(entries: seq<Entry>, d: string) returns (e: Entry)
    requires d in Digests(entries)
    ensures e in entries && e.digest == d
  {
    var k :| 0 <= k < |entries| && Digests(entries)[k] == d;
    e := entries[k];
  }

  lemma {:induction false} PlanParts(entries: seq<Entry>, budget: int)
    ensures var plan, choice := PlanOf(entries, budget), ChoiceOf(entries, budget);
      && plan.keep == Digests(Filter(entries, Pinned) + choice.keep) && plan.evict == Digests(choice.evict)
      && plan.keptBytes == choice.used && plan.budget == budget
  {
    hide Filter, ChoiceOf;
    DigestsSplit(Filter(entries, Pinned), ChoiceOf(entries, budget).keep);
  }

  /** Every entry is kept or evicted, none twice; every pin is kept; the kept bytes are what they add up to and fit. */
  lemma {:induction false} PlanPartitions(entries: seq<Entry>, budget: int)
    requires Plannable(entries, budget)
    ensures var plan, choice := PlanOf(entries, budget), ChoiceOf(entries, budget);
      && multiset(plan.keep) + multiset(plan.evict) == multiset(Digests(entries))
      && (forall e :: e in entries && e.pinned ==> e.digest in plan.keep)
      && plan.keptBytes == Bytes(Filter(entries, Pinned) + choice.keep) && plan.keptBytes <= budget
  {
    hide Filter, ChoiceOf, AllSound, PlanOf, Digests, Bytes;
    var choice := ChoiceOf(entries, budget);
    var kept := Filter(entries, Pinned) + choice.keep;
    ChoicePays(entries, budget);
    ChoicePartitions(entries, budget);
    PlanParts(entries, budget);
    DigestsOfPermutation(kept + choice.evict, entries);
    DigestsSplit(kept, choice.evict);
    forall e | e in entries && e.pinned
      ensures e.digest in PlanOf(entries, budget).keep
    {
      FilterIn(entries, Pinned, e);
      assert e in kept;
      DigestIn(kept, e);
    }
  }

  /** What the plan says of one entry of the input. */
  lemma PlanDecides(entries: seq<Entry>, budget: int, e: Entry)
    requires Plannable(entries, budget) && e in entries
    ensures var plan, choice := PlanOf(entries, budget), ChoiceOf(entries, budget);
      && (e.digest in plan.keep <==> e.pinned || e in choice.keep)
      && (e.digest in plan.evict <==> !e.pinned && e in choice.evict)
      && !(e.digest in plan.keep && e.digest in plan.evict)
  {
    hide Filter, ChoiceOf, AllSound, PlanOf, Digests, Bytes;
    var plan, choice := PlanOf(entries, budget), ChoiceOf(entries, budget);
    var kept := Filter(entries, Pinned) + choice.keep;
    PlanParts(entries, budget);
    ChoiceMembers(entries, budget);
    if e.digest in plan.keep {
      var f := DigestOf(kept, e.digest);
      SameDigestSameEntry(entries, e, f);
    }
    if e.digest in plan.evict {
      var f := DigestOf(choice.evict, e.digest);
      SameDigestSameEntry(entries, e, f);
    }
    if e in kept {
      DigestIn(kept, e);
    }
    if e in choice.evict {
      DigestIn(choice.evict, e);
    }
    NotBoth(entries, budget, e);
  }

  /** Kept entries are the pinned and the chosen ones, evicted ones are unpinned; all come from the input. */
  lemma {:induction false} ChoiceMembers(entries: seq<Entry>, budget: int)
    requires AllSound(entries)
    ensures var choice := ChoiceOf(entries, budget);
      && (forall e :: e in Filter(entries, Pinned) + choice.keep <==> (e in entries && e.pinned) || e in choice.keep)
      && (forall e :: e in choice.keep || e in choice.evict <==> e in entries && !e.pinned)
  {
    hide Filter, Choose, RowSound, MoreRecent, ByRecency;
    RecencyFacts(entries);
    ChosenMembers(ByRecency(entries), Bytes(Filter(entries, Pinned)), budget);
    forall e
      ensures e in Filter(entries, Pinned) <==> e in entries && e.pinned
    {
      FilterIn(entries, Pinned, e);
    }
  }

  lemma NotBoth(entries: seq<Entry>, budget: int, e: Entry)
    requires Plannable(entries, budget) && e in entries
    ensures !(e in ChoiceOf(entries, budget).keep && e in ChoiceOf(entries, budget).evict)
  {
    hide Filter, Choose, RowSound, MoreRecent;
    var choice := ChoiceOf(entries, budget);
    ChoicePartitions(entries, budget);
    SoundCounts(entries, e);
    var pinned := Filter(entries, Pinned);
    assert multiset(pinned + choice.keep) == multiset(pinned) + multiset(choice.keep);
    assert multiset(entries)[e] == multiset(pinned)[e] + multiset(choice.keep)[e] + multiset(choice.evict)[e];
  }

  lemma {:induction false} PinnedReason(pinned: seq<Entry>, d: string)
    ensures d in WhyPinned(pinned) <==> d in Digests(pinned)
    ensures d in WhyPinned(pinned) ==> WhyPinned(pinned)[d] == IsPinned
  {
    if pinned != [] {
      var front, last := pinned[..|pinned| - 1], pinned[|pinned| - 1];
      PinnedReason(front, d);
      assert Digests(pinned) == Digests(front) + [last.digest];
    }
  }

  lemma {:induction false} ChosenReason(ordered: seq<Entry>, used: int, budget: int, reasons: map<string, Why>, e: Entry)
    requires forall i, j :: 0 <= i < j < |ordered| ==> ordered[i].digest != ordered[j].digest
    requires used <= budget && AllPositive(ordered)
    ensures var c, why := Choose(ordered, used, budget), WhyChosen(ordered, used, budget, reasons);
      && (e in c.keep ==> e.digest in why && why[e.digest] == Fits)
      && (e in c.evict ==> e.digest in why && why[e.digest].NoRoom? && why[e.digest].nbytes == e.nbytes > why[e.digest].free >= budget - c.used)
      && ((forall x :: x in ordered ==> x.digest != e.digest) ==>
            (e.digest in why <==> e.digest in reasons) && (e.digest in why ==> why[e.digest] == reasons[e.digest]))
  {
    if ordered != [] {
      var front, x := ordered[..|ordered| - 1], ordered[|ordered| - 1];
      ChosenReason(front, used, budget, reasons, e);
      ChoosePays(front, used, budget);
      ChosenMembers(front, used, budget);
      assert forall y :: y in front ==> y in ordered;
      assert x in ordered;
      forall y | y in front
        ensures y.digest != x.digest
      {
        var i :| 0 <= i < |front| && front[i] == y;
        assert ordered[i] == y;
      }
    }
  }

  /** The reasons of a plan are the truth about it, entry by entry: for one evicted, a room it did not fit in. */
  lemma {:induction false} ReasonsAreTrue(entries: seq<Entry>, budget: int, e: Entry)
    requires Plannable(entries, budget) && e in entries
    ensures var plan := PlanOf(entries, budget);
      && e.digest in plan.reasons
      && (plan.reasons[e.digest] == IsPinned <==> e.pinned)
      && (plan.reasons[e.digest] == Fits <==> !e.pinned && e.digest in plan.keep)
      && (plan.reasons[e.digest].NoRoom? <==> e.digest in plan.evict)
      && (plan.reasons[e.digest].NoRoom? ==>
            plan.reasons[e.digest].nbytes == e.nbytes > plan.reasons[e.digest].free >= plan.budget - plan.keptBytes)
  {
    hide Filter, Choose, AllSound, MoreRecent, ByRecency, WhyChosen, WhyPinned, Digests;
    var pinned, order, choice := Filter(entries, Pinned), ByRecency(entries), ChoiceOf(entries, budget);
    RecencyFacts(entries);
    PlanDecides(entries, budget, e);
    ChoiceMembers(entries, budget);
    OrderDigests(entries);
    ChosenReason(order, Bytes(pinned), budget, WhyPinned(pinned), e);
    PinnedReason(pinned, e.digest);
    if e.pinned {
      FilterIn(entries, Pinned, e);
      DigestIn(pinned, e);
      forall x | x in order
        ensures x.digest != e.digest
      {
        SameDigestSameEntry(entries, x, e);
      }
    }
  }

  lemma {:induction false} OrderDigests(entries: seq<Entry>)
    requires AllSound(entries)
    ensures var order := ByRecency(entries); forall i, j :: 0 <= i < j < |order| ==> order[i].digest != order[j].digest
  {
    hide AllSound, ByRecency, MoreRecent;
    RecencyFacts(entries);
    var order := ByRecency(entries);
    forall i, j | 0 <= i < j < |order|
      ensures order[i].digest != order[j].digest
    {
      assert order[i] in order && order[j] in order;
      SameDigestSameEntry(entries, order[i], order[j]);
    }
  }

  /**
   * Eviction is never gratuitous and never by age alone: an evicted entry does not fit in the room
   * the plan leaves, and it is strictly larger than every less recent unpinned entry that is kept.
   */
  lemma EvictedForARoom(entries: seq<Entry>, budget: int, e: Entry)
    requires Plannable(entries, budget) && e in entries && e.digest in PlanOf(entries, budget).evict
    ensures !e.pinned && e.nbytes > budget - PlanOf(entries, budget).keptBytes
    ensures forall f :: f in entries && !f.pinned && f.digest in PlanOf(entries, budget).keep && MoreRecent(e, f) ==> e.nbytes > f.nbytes
  {
    hide Filter, Choose, AllSound, MoreRecent, PlanOf, ByRecency;
    PlanParts(entries, budget);
    ChoicePays(entries, budget);
    PlanDecides(entries, budget, e);
    ChoiceMembers(entries, budget);
    RecencyFacts(entries);
    forall f | f in entries && !f.pinned && f.digest in PlanOf(entries, budget).keep && MoreRecent(e, f)
      ensures e.nbytes > f.nbytes
    {
      PlanDecides(entries, budget, f);
      PassedOverIsLarger(ByRecency(entries), Bytes(Filter(entries, Pinned)), budget, e, f);
    }
  }

  /** The order of the input decides nothing: same eviction list, same kept bytes, same kept digests, same reasons. */
  lemma OrderDoesNotMatter(a: seq<Entry>, b: seq<Entry>, budget: int)
    requires Plannable(a, budget) && multiset(a) == multiset(b)
    ensures Plannable(b, budget)
    ensures PlanOf(a, budget).evict == PlanOf(b, budget).evict && PlanOf(a, budget).keptBytes == PlanOf(b, budget).keptBytes
    ensures multiset(PlanOf(a, budget).keep) == multiset(PlanOf(b, budget).keep)
    ensures PlanOf(a, budget).reasons == PlanOf(b, budget).reasons
  {
    hide Filter, Choose, RowSound, MoreRecent, WhyChosen, WhyPinned;
    SubSound(a, b);
    SameFilter(a, b, Pinned);
    SameFilter(a, b, Unpinned);
    BytesOfPermutation(Filter(a, Pinned), Filter(b, Pinned));
    RecencyFacts(a);
    RecencyFacts(b);
    RecencyIsTotal();
    OrderedIsUnique(ByRecency(a), ByRecency(b), MoreRecent);
    DigestsOfPermutation(Filter(a, Pinned), Filter(b, Pinned));
    SamePinReasons(Filter(a, Pinned), Filter(b, Pinned));
  }

  lemma SamePinReasons(a: seq<Entry>, b: seq<Entry>)
    requires multiset(Digests(a)) == multiset(Digests(b))
    ensures WhyPinned(a) == WhyPinned(b)
  {
    hide WhyPinned, Digests;
    SameMembers(Digests(a), Digests(b));
    forall d
      ensures d in WhyPinned(a) <==> d in WhyPinned(b)
      ensures d in WhyPinned(a) ==> WhyPinned(a)[d] == WhyPinned(b)[d]
    {
      PinnedReason(a, d);
      PinnedReason(b, d);
    }
  }

  lemma {:induction false} OneOfMany(entries: seq<Entry>, e: Entry)
    requires AllPositive(entries) && e in entries
    ensures e.nbytes <= Bytes(entries)
  {
    var front := entries[..|entries| - 1];
    NotNegative(front);
    if e in front {
      OneOfMany(front, e);
    }
  }

  lemma {:induction false} NotNegative(entries: seq<Entry>)
    requires AllPositive(entries)
    ensures Bytes(entries) >= 0
  {
    if entries != [] {
      NotNegative(entries[..|entries| - 1]);
    }
  }

  lemma TooLargeIsNotKept(entries: seq<Entry>, e: Entry, budget: int)
    requires e in entries && e.nbytes > budget
    ensures !(Plannable(entries, budget) && e.digest in PlanOf(entries, budget).keep)
  {
    hide Filter, ChoiceOf, AllSound, PlanOf, Digests, Bytes;
    if Plannable(entries, budget) && e.digest in PlanOf(entries, budget).keep {
      var kept := Filter(entries, Pinned) + ChoiceOf(entries, budget).keep;
      KeptEntries(entries, budget);
      ChoicePays(entries, budget);
      OneOfMany(kept, e);
    }
  }

  /** The kept entries are entries of the input. */
  lemma {:induction false} KeptEntries(entries: seq<Entry>, budget: int)
    requires Plannable(entries, budget)
    ensures var kept := Filter(entries, Pinned) + ChoiceOf(entries, budget).keep;
      AllPositive(kept) && forall e :: e in kept <==> e in entries && e.digest in PlanOf(entries, budget).keep
  {
    hide Filter, ChoiceOf, AllSound, PlanOf, Digests, Bytes;
    var kept := Filter(entries, Pinned) + ChoiceOf(entries, budget).keep;
    ChoiceMembers(entries, budget);
    forall e
      ensures e in kept <==> e in entries && e.digest in PlanOf(entries, budget).keep
    {
      if e in entries {
        PlanDecides(entries, budget, e);
      }
    }
    forall i | 0 <= i < |kept|
      ensures kept[i].nbytes > 0
    {
      assert kept[i] in kept;
      PositiveMember(entries, kept[i]);
    }
  }

  lemma PositiveMember(entries: seq<Entry>, e: Entry)
    requires AllSound(entries) && e in entries
    ensures ValidEntry(e)
  {
    var k :| 0 <= k < |entries| && entries[k] == e;
    assert RowSound(entries, k);
  }

  /** Planning again what a plan kept, in any order, evicts nothing and keeps it all. */
  lemma {:induction false} ReplanningEvictsNothing(entries: seq<Entry>, kept: seq<Entry>, budget: int)
    requires Plannable(entries, budget)
    requires multiset(kept) == multiset(Filter(entries, Pinned) + ChoiceOf(entries, budget).keep)
    ensures Plannable(kept, budget)
    ensures PlanOf(kept, budget).evict == [] && PlanOf(kept, budget).keptBytes == PlanOf(entries, budget).keptBytes
    ensures multiset(PlanOf(kept, budget).keep) == multiset(PlanOf(entries, budget).keep)
  {
    hide Filter, ChoiceOf, AllSound, PlanOf, Digests, Bytes;
    var again := Filter(entries, Pinned) + ChoiceOf(entries, budget).keep;
    KeptSound(entries, kept, budget);
    ChoicePays(entries, budget);
    BytesOfPermutation(kept, again);
    FittingEntriesAllStay(kept, budget);
    PlanParts(entries, budget);
    DigestsOfPermutation(kept, again);
  }

  lemma {:induction false} FittingEntriesAllStay(kept: seq<Entry>, budget: int)
    requires AllSound(kept) && Bytes(kept) <= budget && budget >= 0
    ensures Plannable(kept, budget) && PlanOf(kept, budget).evict == []
    ensures PlanOf(kept, budget).keptBytes == Bytes(kept) && multiset(PlanOf(kept, budget).keep) == multiset(Digests(kept))
  {
    hide Filter, Choose, AllSound, PlanOf, Digests, Bytes, ByRecency, MoreRecent;
    var pinned, order := Filter(kept, Pinned), ByRecency(kept);
    RecencyFacts(kept);
    FiltersPartition(kept);
    BytesOfPermutation(pinned + order, kept);
    BytesSplit(pinned, order);
    NotNegative(order);
    EverythingFits(order, Bytes(pinned), budget);
    PlanParts(kept, budget);
    DigestsOfPermutation(pinned + order, kept);
    assert Digests([]) == [] by { NoDigests(); }
  }

  lemma NoDigests()
    ensures Digests([]) == []
  {
  }

  lemma {:induction false} KeptSound(entries: seq<Entry>, kept: seq<Entry>, budget: int)
    requires Plannable(entries, budget)
    requires multiset(kept) == multiset(Filter(entries, Pinned) + ChoiceOf(entries, budget).keep)
    ensures AllSound(kept)
  {
    hide Filter, ChoiceOf, PlanOf, Bytes;
    KeptEntries(entries, budget);
    ChoicePartitions(entries, budget);
    SameMembers(kept, Filter(entries, Pinned) + ChoiceOf(entries, budget).keep);
    SubSound(entries, kept);
  }

  /** Any part of a sound table, in any order, is sound. */
  lemma SubSound(entries: seq<Entry>, part: seq<Entry>)
    requires AllSound(entries) && multiset(part) <= multiset(entries)
    ensures AllSound(part)
  {
    hide AllSound, ValidEntry;
    forall x | x in part
      ensures x in entries
    {
      assert x in multiset(part);
      assert multiset(part)[x] <= multiset(entries)[x];
      assert x in multiset(entries);
    }
    forall i | 0 <= i < |part|
      ensures RowSound(part, i)
    {
      assert part[i] in part;
      PositiveMember(entries, part[i]);
      forall j | 0 <= j < i
        ensures part[j].digest != part[i].digest
      {
        assert part[j] in part;
        SameDigestSameEntry(entries, part[j], part[i]);
        if part[j] == part[i] {
          TwiceIn(part, j, i);
          SoundCounts(entries, part[i]);
          assert false;
        }
      }
    }
    SoundFromRows(part);
  }

  lemma SoundFromRows(part: seq<Entry>)
    requires forall i :: 0 <= i < |part| ==> RowSound(part, i)
    ensures AllSound(part)
  {
  }

  lemma TwiceIn<T>(s: seq<T>, j: nat, i: nat)
    requires j < i < |s| && s[j] == s[i]
    ensures multiset(s)[s[i]] >= 2
  {
    var x := s[i];
    assert s == s[..j] + [x] + s[j + 1..i] + [x] + s[i + 1..];
  }
}
