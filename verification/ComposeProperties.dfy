/** Exactness is having the same left context, and what an edit costs. */
module ComposeProperties {
  import opened Wrappers
  import opened Bytes
  import opened Compose

  /** `plan` accepts exactly the composable lists, and refuses repair unless it is allowed. */
  lemma {:induction false} PlanExactly(regions: seq<Region>, allowRepair: bool, sha: bytes -> Digest)
    ensures PlanOf(regions, allowRepair, sha).Success? <==>
      Composable(regions) && (allowRepair || RepairOf(regions, sha) == 0)
    ensures PlanOf(regions, allowRepair, sha).Success? ==> PlanRight(PlanOf(regions, allowRepair, sha).value, regions, sha)
  {
    hide ValidRegion, Chain, PlaceOne, PlacedRight;
    if regions != [] && regions[0].start == 0 {
      assert regions[..0] == [] && regions[..|regions|] == regions;
      assert Chain([], sha) == AT_FRONT by { EmptyChain(sha); }
      assert TokenDigests([]) == [];
      assert Reached(AT_START, regions, 0, sha);
      PlaceFromReaches(AT_START, regions, 0, sha);
      ComposableContinues(regions);
      if Composable(regions) {
        RepairNotNegative(regions, sha);
      }
    }
  }

  predicate PlanRight(plan: Plan, regions: seq<Region>, sha: bytes -> Digest) {
    && regions != []
    && |plan.placements| == |regions|
    && (forall i :: 0 <= i < |regions| ==> PlacedRight(plan.placements[i], regions, i, sha))
    && plan.totalTokens == regions[|regions| - 1].end
    && plan.repairTokens == RepairOf(regions, sha)
  }

  lemma EmptyChain(sha: bytes -> Digest)
    ensures Chain([], sha) == AT_FRONT
  {
  }

  lemma ComposableContinues(regions: seq<Region>)
    requires regions != [] && regions[0].start == 0
    ensures Composable(regions) <==> forall i :: 0 <= i < |regions| ==> Continues(regions, i)
  {
    hide ValidRegion;
    if forall i :: 0 <= i < |regions| ==> Continues(regions, i) {
      forall i, j | 0 <= i < j < |regions|
        ensures regions[i].name != regions[j].name
      {
        assert Continues(regions, j);
      }
      forall i | 0 < i < |regions|
        ensures regions[i].start == regions[i - 1].end
      {
        assert Continues(regions, i);
      }
      forall i | 0 <= i < |regions|
        ensures ValidRegion(regions[i])
      {
        assert Continues(regions, i);
      }
    }
  }

  lemma {:induction false} RepairNotNegative(regions: seq<Region>, sha: bytes -> Digest)
    requires forall i :: 0 <= i < |regions| ==> ValidRegion(regions[i])
    ensures RepairOf(regions, sha) >= 0
  {
    if regions != [] {
      RepairNotNegative(regions[..|regions| - 1], sha);
    }
  }

  /**
   * A region is exact where it is placed if and only if the token digests in front of it are,
   * one for one and in order, those it was prefilled behind.
   */
  lemma {:induction false} ExactIffSameLeftContext(regions: seq<Region>, i: nat, behind: seq<Digest>, plan: Plan, sha: bytes -> Digest)
    requires Composable(regions) && i < |regions| && FullDigests(behind)
    requires PlanRight(plan, regions, sha)
    requires regions[i].prefilledAfter == Chain(behind, sha)
    requires CollisionFree(Hashed(behind, sha) + Hashed(TokenDigests(regions[..i]), sha), sha)
    ensures plan.placements[i].exact <==> TokenDigests(regions[..i]) == behind
  {
    hide Chain, Hashed, CollisionFree;
    assert PlacedRight(plan.placements[i], regions, i, sha);
    var front := TokenDigests(regions[..i]);
    assert FullDigests(front) by {
      forall k | 0 <= k < i
        ensures |front[k]| == DIGEST_DIGITS
      {
        assert ValidRegion(regions[k]);
      }
    }
    ChainsAgree(behind, front, sha);
  }

  // Appending

  /** A region can be appended, in the sense of `appendable`, exactly when that adds no repair. */
  lemma {:induction false} AppendableIffNoRepair(existing: seq<Region>, addition: Region, sha: bytes -> Digest)
    requires TokenCount(addition) > 0
    ensures addition.prefilledAfter == Chain(TokenDigests(existing), sha) <==>
      RepairOf(existing + [addition], sha) == RepairOf(existing, sha)
  {
    hide Chain;
    assert (existing + [addition])[..|existing|] == existing;
  }

  // Content

  datatype Entry = Entry(name: string, role: string, text: string, tokens: seq<int>)

  predicate FitsWord(tokens: seq<int>) {
    forall i :: 0 <= i < |tokens| ==> -TWO_TO_THE_63 <= tokens[i] < TWO_TO_THE_63
  }

  /** Each id as eight little-endian bytes, two's complement. */
  function IdBytes(tokens: seq<int>): (b: bytes)
    requires FitsWord(tokens)
    ensures |b| == 8 * |tokens|
  {
    if tokens == [] then [] else
    WordSizes();
    ToLe(if tokens[0] >= 0 then tokens[0] else tokens[0] + TWO_TO_THE_64, 8) + IdBytes(tokens[1..])
  }

  /** `token_digest` hashes different id sequences differently if the hash does not collide on them. */
  lemma {:induction false} IdBytesInjective(a: seq<int>, b: seq<int>)
    requires FitsWord(a) && FitsWord(b)
    ensures IdBytes(a) == IdBytes(b) <==> a == b
  {
    hide Le;
    if IdBytes(a) == IdBytes(b) && a != [] {
      WordSizes();
      assert |IdBytes(b)| == 8 * |b| && b != [];
      var x := ToLe(if a[0] >= 0 then a[0] else a[0] + TWO_TO_THE_64, 8);
      var y := ToLe(if b[0] >= 0 then b[0] else b[0] + TWO_TO_THE_64, 8);
      assert IdBytes(a)[..8] == x && IdBytes(b)[..8] == y;
      assert IdBytes(a)[8..] == IdBytes(a[1..]) && IdBytes(b)[8..] == IdBytes(b[1..]);
      IdBytesInjective(a[1..], b[1..]);
      assert a == [a[0]] + a[1..] && b == [b[0]] + b[1..];
    }
  }

  predicate SoundEntry(e: Entry) {
    e.name != "" && e.role in ROLES && e.tokens != [] && FitsWord(e.tokens)
  }

  /** `Entry.region` */
  function RegionOf(e: Entry, start: int, prefilledAfter: Digest, sha: bytes -> Digest): Region
    requires FitsWord(e.tokens)
  {
    Region(e.name, e.role, start, start + |e.tokens|, sha(IdBytes(e.tokens)), prefilledAfter)
  }

  predicate SoundEntries(entries: seq<Entry>) {
    && (forall i :: 0 <= i < |entries| ==> SoundEntry(entries[i]))
    && forall i, j :: 0 <= i < j < |entries| ==> entries[i].name != entries[j].name
  }

  function TotalTokens(entries: seq<Entry>): nat {
    if entries == [] then 0 else TotalTokens(entries[..|entries| - 1]) + |entries[|entries| - 1].tokens|
  }

  predicate FullHash(sha: bytes -> Digest, x: bytes) {
    |sha(x)| == DIGEST_DIGITS
  }

  predicate RegionRight(regions: seq<Region>, entries: seq<Entry>, i: nat, sha: bytes -> Digest)
    requires i < |entries| && i < |regions| && FitsWord(entries[i].tokens)
  {
    regions[i] == RegionOf(entries[i], TotalTokens(entries[..i]), Chain(TokenDigests(regions[..i]), sha), sha)
  }

  /** Each region starts where the one before ends and records the chain digest of what precedes it. */
  predicate RegionsRight(regions: seq<Region>, entries: seq<Entry>, sha: bytes -> Digest) {
    && |regions| == |entries|
    && forall i :: 0 <= i < |entries| ==> FitsWord(entries[i].tokens) && RegionRight(regions, entries, i, sha)
  }

  /** `Content.regions`; None where an entry without tokens has no digest. */
  method ContentRegions(entries: seq<Entry>, sha: bytes -> Digest) returns (r: Option<seq<Region>>)
    requires forall i :: 0 <= i < |entries| ==> FitsWord(entries[i].tokens)
    ensures r.Some? <==> forall i :: 0 <= i < |entries| ==> entries[i].tokens != []
    ensures r.Some? ==> RegionsRight(r.value, entries, sha)
  {
    hide FitsWord, Chain;
    var out: seq<Region> := [];
    var start: nat, chain := 0, AT_FRONT;
    EmptyChain(sha);
    var n: nat := 0;
    while n < |entries|
      invariant n <= |entries| && RegionsRight(out, entries[..n], sha)
      invariant start == TotalTokens(entries[..n]) && chain == Chain(TokenDigests(out), sha)
      invariant forall i :: 0 <= i < n ==> entries[i].tokens != []
    {
      if entries[n].tokens == [] {
        return None;
      }
      var region := RegionOf(entries[n], start, chain, sha);
      RegionsSnoc(out, entries, n, region, sha);
      out := out + [region];
      chain := ChainDigest(chain, region, sha);
      start := region.end;
      n := n + 1;
    }
    assert entries[..n] == entries;
    return Some(out);
  }

  lemma {:induction false} RegionsSnoc(before: seq<Region>, entries: seq<Entry>, n: nat, region: Region, sha: bytes -> Digest)
    requires n < |entries| && FitsWord(entries[n].tokens)
    requires RegionsRight(before, entries[..n], sha)
    requires region == RegionOf(entries[n], TotalTokens(entries[..n]), Chain(TokenDigests(before), sha), sha)
    ensures RegionsRight(before + [region], entries[..n + 1], sha)
    ensures TotalTokens(entries[..n + 1]) == TotalTokens(entries[..n]) + |entries[n].tokens|
    ensures Chain(TokenDigests(before + [region]), sha) == ChainDigest(Chain(TokenDigests(before), sha), region, sha)
  {
    hide FitsWord, Chain, RegionOf, RegionRight, TokenDigests;
    var after, done := before + [region], entries[..n + 1];
    assert done[..n] == entries[..n];
    assert after[..n] == before && after[..n + 1] == after;
    ChainGrows(after, n, sha);
    forall i | 0 <= i < n + 1
      ensures FitsWord(done[i].tokens) && RegionRight(after, done, i, sha)
    {
      if i < n {
        assert RegionRight(before, entries[..n], i, sha);
        assert done[i] == entries[..n][i];
        SamePrefixRight(before, after, entries[..n], done, i, sha);
      } else {
        LastRight(after, done, n, sha);
      }
    }
  }

  lemma {:induction false} LastRight(after: seq<Region>, done: seq<Entry>, n: nat, sha: bytes -> Digest)
    requires |after| == |done| == n + 1 && FitsWord(done[n].tokens)
    requires after[n] == RegionOf(done[n], TotalTokens(done[..n]), Chain(TokenDigests(after[..n]), sha), sha)
    ensures RegionRight(after, done, n, sha)
  {
  }

  lemma {:induction false} SamePrefixRight(a: seq<Region>, b: seq<Region>, d: seq<Entry>, e: seq<Entry>, i: nat, sha: bytes -> Digest)
    requires |a| == |d| && i < |a| <= |b| && |a| <= |e| && b[..|a|] == a && e[..|d|] == d
    requires FitsWord(d[i].tokens) && FitsWord(e[i].tokens) && RegionRight(a, d, i, sha)
    ensures RegionRight(b, e, i, sha)
  {
    assert b[..i] == a[..i] && e[..i] == d[..i];
    assert b[i] == b[..|a|][i] && e[i] == e[..|d|][i];
  }

  /**
   * A canonical content always plans without repair, and its plan covers every token once. Both
   * directions: the only content that does not is one with an unsound or repeated entry, or none.
   */
  lemma {:induction false} ContentAlwaysPlans(entries: seq<Entry>, regions: seq<Region>, sha: bytes -> Digest)
    requires forall x :: FullHash(sha, x)
    requires RegionsRight(regions, entries, sha)
    ensures PlanOf(regions, false, sha).Success? <==> entries != [] && SoundEntries(entries)
    ensures PlanOf(regions, false, sha).Success? ==>
      PlanOf(regions, false, sha).value.repairTokens == 0 && PlanOf(regions, false, sha).value.totalTokens == TotalTokens(entries)
  {
    hide FitsWord, Chain, PlanOf, PlacedRight, Composable, SoundEntries;
    PlanExactly(regions, false, sha);
    NoRepairInContent(regions, entries, sha, |regions|);
    assert regions[..|regions|] == regions;
    ContentComposable(entries, regions, sha);
    if entries != [] {
      ContentRegionFacts(entries, regions, sha, |entries| - 1);
      assert entries[..|entries|] == entries;
    }
  }

  lemma {:induction false} ContentRegionFacts(entries: seq<Entry>, regions: seq<Region>, sha: bytes -> Digest, i: nat)
    requires forall x :: FullHash(sha, x)
    requires RegionsRight(regions, entries, sha) && i < |entries|
    ensures ValidRegion(regions[i]) <==> SoundEntry(entries[i])
    ensures regions[i].name == entries[i].name
    ensures regions[i].start == TotalTokens(entries[..i]) && regions[i].end == TotalTokens(entries[..i + 1])
  {
    hide FitsWord, Chain, IdBytes;
    assert RegionRight(regions, entries, i, sha);
    assert FullHash(sha, IdBytes(entries[i].tokens));
    ChainNotEmpty(TokenDigests(regions[..i]), sha);
    assert entries[..i + 1][..i] == entries[..i];
  }

  lemma {:induction false} ContentComposable(entries: seq<Entry>, regions: seq<Region>, sha: bytes -> Digest)
    requires forall x :: FullHash(sha, x)
    requires RegionsRight(regions, entries, sha)
    ensures Composable(regions) <==> entries != [] && SoundEntries(entries)
  {
    hide FitsWord, ValidRegion, SoundEntry, RegionRight;
    forall i | 0 <= i < |entries|
      ensures ValidRegion(regions[i]) <==> SoundEntry(entries[i])
      ensures regions[i].name == entries[i].name
      ensures i > 0 ==> regions[i].start == regions[i - 1].end
      ensures i == 0 ==> regions[i].start == 0
    {
      ContentRegionFacts(entries, regions, sha, i);
      if i > 0 {
        ContentRegionFacts(entries, regions, sha, i - 1);
      } else {
        assert entries[..0] == [];
      }
    }
    SameShape(entries, regions);
  }

  lemma {:induction false} SameShape(entries: seq<Entry>, regions: seq<Region>)
    requires |regions| == |entries|
    requires forall i :: 0 <= i < |entries| ==> (ValidRegion(regions[i]) <==> SoundEntry(entries[i]))
    requires forall i :: 0 <= i < |entries| ==> regions[i].name == entries[i].name
    requires forall i :: 0 < i < |entries| ==> regions[i].start == regions[i - 1].end
    requires entries != [] ==> regions[0].start == 0
    ensures Composable(regions) <==> entries != [] && SoundEntries(entries)
  {
    hide FitsWord, ValidRegion, SoundEntry;
    if Composable(regions) {
      forall i | 0 <= i < |entries|
        ensures SoundEntry(entries[i])
      {
        assert ValidRegion(regions[i]);
      }
      forall i, j | 0 <= i < j < |entries|
        ensures entries[i].name != entries[j].name
      {
        assert regions[i].name != regions[j].name;
      }
    }
  }

  lemma {:induction false} ChainNotEmpty(digests: seq<Digest>, sha: bytes -> Digest)
    requires forall x :: FullHash(sha, x)
    ensures Chain(digests, sha) != []
  {
    if digests != [] {
      assert FullHash(sha, Preimage(Chain(digests[..|digests| - 1], sha), digests[|digests| - 1]));
    }
  }

  lemma {:induction false} NoRepairInContent(regions: seq<Region>, entries: seq<Entry>, sha: bytes -> Digest, n: nat)
    requires RegionsRight(regions, entries, sha) && n <= |regions|
    ensures RepairOf(regions[..n], sha) == 0
  {
    hide FitsWord, Chain;
    if n > 0 {
      assert RegionRight(regions, entries, n - 1, sha);
      NoRepairInContent(regions, entries, sha, n - 1);
      assert regions[..n][..n - 1] == regions[..n - 1];
    }
  }

  // Edits

  /** The regions after one of them has new tokens and everything has been addressed again; what each was prefilled behind is a fact about its cache and stays. */
  function Edited(regions: seq<Region>, i: nat, digest: Digest, count: int): seq<Region>
    requires i < |regions|
  {
    var shift := count - TokenCount(regions[i]);
    seq(|regions|, j requires 0 <= j < |regions| =>
      if j < i then regions[j]
      else if j == i then regions[i].(end := regions[i].start + count, tokensDigest := digest)
      else regions[j].(start := regions[j].start + shift, end := regions[j].end + shift))
  }

  function TokensAfter(regions: seq<Region>, i: nat): int
    requires i < |regions|
  {
    regions[|regions| - 1].end - regions[i].end
  }

  /** Every region up to and including i is exact, and none after it. */
  predicate ExactUpTo(plan: Plan, i: nat, n: nat) {
    |plan.placements| == n && forall j :: 0 <= j < n ==> (plan.placements[j].exact <==> j <= i)
  }

  predicate OneEdit(regions: seq<Region>, i: nat, digest: Digest, count: int, sha: bytes -> Digest) {
    && Composable(regions) && RepairOf(regions, sha) == 0 && i < |regions|
    && count > 0 && |digest| == DIGEST_DIGITS && digest != regions[i].tokensDigest
    && CollisionFree(Hashed(TokenDigests(regions), sha) + Hashed(TokenDigests(Edited(regions, i, digest, count)), sha), sha)
  }

  /**
   * Changing the tokens of region i costs exactly the regions after it: in the new plan a region
   * is exact if and only if it does not come after i, and repair is the token count of those that do.
   */
  lemma {:induction false} EditInvalidatesExactlyWhatFollows(regions: seq<Region>, i: nat, digest: Digest, count: int, sha: bytes -> Digest)
    requires OneEdit(regions, i, digest, count, sha)
    ensures PlanOf(Edited(regions, i, digest, count), true, sha).Success?
    ensures ExactUpTo(PlanOf(Edited(regions, i, digest, count), true, sha).value, i, |regions|)
    ensures PlanOf(Edited(regions, i, digest, count), true, sha).value.repairTokens == TokensAfter(regions, i)
  {
    hide Chain, PlanOf, RepairOf, OneEdit, Composable, PlacedRight, Edited, ExactUpTo, TokenDigests;
    EditFacts(regions, i, digest, count, sha);
    var after := Edited(regions, i, digest, count);
    EditedComposable(regions, i, digest, count);
    PlanExactly(after, true, sha);
    EditedPlacements(regions, i, digest, count, sha, PlanOf(after, true, sha).value);
    EditedTotal(regions, i, digest, count, sha);
  }

  lemma {:induction false} EditedPlacements(regions: seq<Region>, i: nat, digest: Digest, count: int, sha: bytes -> Digest, plan: Plan)
    requires OneEdit(regions, i, digest, count, sha) && i < |regions|
    requires PlanRight(plan, Edited(regions, i, digest, count), sha)
    ensures ExactUpTo(plan, i, |regions|)
  {
    hide Chain, RepairOf, OneEdit, PlacedRight, TokenDigests;
    forall j | 0 <= j < |regions|
      ensures plan.placements[j].exact <==> j <= i
    {
      EditedContext(regions, i, digest, count, sha, j);
      PlacementExact(plan, Edited(regions, i, digest, count), j, sha);
    }
  }

  lemma {:induction false} EditedTotal(regions: seq<Region>, i: nat, digest: Digest, count: int, sha: bytes -> Digest)
    requires OneEdit(regions, i, digest, count, sha) && i < |regions|
    ensures RepairOf(Edited(regions, i, digest, count), sha) == TokensAfter(regions, i)
  {
    hide Chain, RepairOf, OneEdit, TokenDigests;
    var after := Edited(regions, i, digest, count);
    EditFacts(regions, i, digest, count, sha);
    forall j | 0 <= j < |regions|
      ensures InContext(after, j, sha) <==> j <= i
    {
      EditedContext(regions, i, digest, count, sha, j);
    }
    EditedRepair(regions, after, i, sha, |regions|);
    assert after[..|after|] == after;
  }

  lemma {:induction false} EditFacts(regions: seq<Region>, i: nat, digest: Digest, count: int, sha: bytes -> Digest)
    requires OneEdit(regions, i, digest, count, sha)
    ensures Composable(regions) && i < |regions| && count > 0 && |digest| == DIGEST_DIGITS
    ensures forall j :: 0 < j < |regions| ==> regions[j].start == regions[j - 1].end
  {
  }

  lemma {:induction false} PlacementExact(plan: Plan, regions: seq<Region>, j: nat, sha: bytes -> Digest)
    requires PlanRight(plan, regions, sha) && j < |regions|
    ensures plan.placements[j].exact <==> regions[j].prefilledAfter == Chain(TokenDigests(regions[..j]), sha)
  {
    assert PlacedRight(plan.placements[j], regions, j, sha);
  }

  lemma EditedComposable(regions: seq<Region>, i: nat, digest: Digest, count: int)
    requires Composable(regions) && i < |regions| && count > 0 && |digest| == DIGEST_DIGITS
    ensures Composable(Edited(regions, i, digest, count))
  {
    var after := Edited(regions, i, digest, count);
    StartsAtOrAfter(regions, i);
    forall j | 0 <= j < |regions|
      ensures ValidRegion(after[j])
    {
      assert ValidRegion(regions[j]);
    }
  }

  /** Later regions start no earlier than the region before them ends. */
  lemma {:induction false} StartsAtOrAfter(regions: seq<Region>, i: nat)
    requires Composable(regions) && i < |regions|
    ensures forall j :: i < j < |regions| ==> regions[j].start >= regions[i].end
    ensures forall j :: i < j < |regions| ==> regions[j].start - TokenCount(regions[i]) >= 0
  {
    forall j | i < j < |regions|
      ensures regions[j].start >= regions[i].end
    {
      StartAfter(regions, i, j);
    }
    assert ValidRegion(regions[i]);
  }

  lemma {:induction false} StartAfter(regions: seq<Region>, i: nat, j: nat)
    requires Composable(regions) && i < j < |regions|
    ensures regions[j].start >= regions[i].end
  {
    if i + 1 < j {
      StartAfter(regions, i, j - 1);
      assert ValidRegion(regions[j - 1]);
    }
  }

  lemma {:induction false} NoRepairMeansContexts(regions: seq<Region>, sha: bytes -> Digest, j: nat)
    requires forall k :: 0 <= k < |regions| ==> ValidRegion(regions[k])
    requires RepairOf(regions, sha) == 0 && j < |regions|
    ensures regions[j].prefilledAfter == Chain(TokenDigests(regions[..j]), sha)
  {
    hide Chain;
    var front := regions[..|regions| - 1];
    RepairNotNegative(front, sha);
    if j < |front| {
      NoRepairMeansContexts(front, sha, j);
      assert front[..j] == regions[..j];
    }
  }

  lemma {:induction false} HashedPrefix(digests: seq<Digest>, n: nat, sha: bytes -> Digest)
    requires n <= |digests|
    ensures Hashed(digests[..n], sha) <= Hashed(digests, sha)
  {
    if n < |digests| {
      HashedPrefix(digests[..|digests| - 1], n, sha);
      assert digests[..|digests| - 1][..n] == digests[..n];
    } else {
      assert digests[..n] == digests;
    }
  }

  lemma FewerPreimages(some: set<bytes>, all: set<bytes>, sha: bytes -> Digest)
    requires some <= all && CollisionFree(all, sha)
    ensures CollisionFree(some, sha)
  {
  }

  lemma {:induction false} EditedContext(regions: seq<Region>, i: nat, digest: Digest, count: int, sha: bytes -> Digest, j: nat)
    requires OneEdit(regions, i, digest, count, sha) && j < |regions|
    ensures var after := Edited(regions, i, digest, count);
      after[j].prefilledAfter == Chain(TokenDigests(after[..j]), sha) <==> j <= i
  {
    hide Chain, Hashed, CollisionFree, RepairOf, ValidRegion;
    var after := Edited(regions, i, digest, count);
    NoRepairMeansContexts(regions, sha, j);
    var a, b := TokenDigests(regions[..j]), TokenDigests(after[..j]);
    assert a == TokenDigests(regions)[..j] && b == TokenDigests(after)[..j];
    HashedPrefix(TokenDigests(regions), j, sha);
    HashedPrefix(TokenDigests(after), j, sha);
    FewerPreimages(Hashed(a, sha) + Hashed(b, sha), Hashed(TokenDigests(regions), sha) + Hashed(TokenDigests(after), sha), sha);
    EditedDigests(regions, i, digest, count, j);
    ChainsAgree(a, b, sha);
  }

  lemma {:induction false} EditedDigests(regions: seq<Region>, i: nat, digest: Digest, count: int, j: nat)
    requires Composable(regions) && i < |regions| && j < |regions| && |digest| == DIGEST_DIGITS && digest != regions[i].tokensDigest
    ensures var a, b := TokenDigests(regions[..j]), TokenDigests(Edited(regions, i, digest, count)[..j]);
      FullDigests(a) && FullDigests(b) && (a == b <==> j <= i)
  {
    var a, b := TokenDigests(regions[..j]), TokenDigests(Edited(regions, i, digest, count)[..j]);
    forall k | 0 <= k < j
      ensures |a[k]| == DIGEST_DIGITS && |b[k]| == DIGEST_DIGITS
    {
      assert ValidRegion(regions[k]);
    }
    if i < j {
      assert a[i] != b[i];
    } else {
      assert forall k :: 0 <= k < j ==> a[k] == b[k];
      assert a == b;
    }
  }

  predicate InContext(regions: seq<Region>, j: nat, sha: bytes -> Digest)
    requires j < |regions|
  {
    regions[j].prefilledAfter == Chain(TokenDigests(regions[..j]), sha)
  }

  lemma {:induction false} RepairSnoc(regions: seq<Region>, n: nat, sha: bytes -> Digest)
    requires n < |regions|
    ensures RepairOf(regions[..n + 1], sha)
         == RepairOf(regions[..n], sha) + (if InContext(regions, n, sha) then 0 else TokenCount(regions[n]))
  {
    hide Chain, TokenDigests;
    assert regions[..n + 1][..n] == regions[..n];
  }

  lemma {:induction false} EditedRepair(regions: seq<Region>, after: seq<Region>, i: nat, sha: bytes -> Digest, n: nat)
    requires |after| == |regions| && i < |regions| && n <= |regions|
    requires forall j :: i < j < |regions| ==> TokenCount(after[j]) == TokenCount(regions[j])
    requires forall j :: 0 < j < |regions| ==> regions[j].start == regions[j - 1].end
    requires forall j :: 0 <= j < |regions| ==> (InContext(after, j, sha) <==> j <= i)
    ensures RepairOf(after[..n], sha) == if n <= i then 0 else regions[n - 1].end - regions[i].end
  {
    hide InContext;
    if n > 0 {
      EditedRepair(regions, after, i, sha, n - 1);
      RepairSnoc(after, n - 1, sha);
    }
  }
}
