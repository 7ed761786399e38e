/** Composing a prompt from cached regions: `kv_rosetta/compose.py`, and `kv_rosetta/shared.py`'s content. */
module Compose {
  import opened Wrappers
  import opened Bytes

  const ROLES: set<string> := {"system", "tools", "memory", "document", "session"}

  /** `AT_FRONT`: the four characters `root`. */
  const AT_FRONT: Digest := [0x72, 0x6F, 0x6F, 0x74]

  const SEPARATOR: byte := 0x1F

  datatype Region = Region(name: string, role: string, start: int, end: int, tokensDigest: Digest, prefilledAfter: Digest)

  function TokenCount(r: Region): int {
    r.end - r.start
  }

  /** What `Region.validate` finds nothing wrong with. */
  predicate ValidRegion(r: Region) {
    && r.name != "" && r.role in ROLES && TokenCount(r) > 0 && r.start >= 0
    && |r.tokensDigest| == DIGEST_DIGITS && r.prefilledAfter != []
  }

  /** The bytes hashed for a region placed behind a context. */
  function Preimage(previous: Digest, tokensDigest: Digest): bytes {
    previous + [SEPARATOR] + tokensDigest
  }

  /** `chain_digest` */
  function ChainDigest(previous: Digest, r: Region, sha: bytes -> Digest): Digest {
    sha(Preimage(previous, r.tokensDigest))
  }

  datatype Placement = Placement(region: Region, exact: bool, expectedContext: Digest)

  datatype Plan = Plan(placements: seq<Placement>, totalTokens: int, repairTokens: int)

  datatype Problem =
    | NothingToCompose | NoBeginning | BadRegion(index: nat) | NameTwice(index: nat) | GapOrOverlap(index: nat) | NeedsRepair(tokens: int)

  /** The state of the loop in `plan`. */
  datatype Progress = Progress(seen: set<string>, expectedStart: int, context: Digest, repair: int, placements: seq<Placement>)

  function PlaceOne(p: Progress, r: Region, index: nat, sha: bytes -> Digest): Result<Progress, Problem> {
    if !ValidRegion(r) then Failure(BadRegion(index))
    else if r.name in p.seen then Failure(NameTwice(index))
    else if r.start != p.expectedStart then Failure(GapOrOverlap(index))
    else
      var exact := r.prefilledAfter == p.context;
      Success(Progress(
        p.seen + {r.name}, r.end, ChainDigest(p.context, r, sha), if exact then p.repair else p.repair + TokenCount(r),
        p.placements + [Placement(r, exact, p.context)]))
  }

  function PlaceFrom(p: Progress, regions: seq<Region>, index: nat, sha: bytes -> Digest): Result<Progress, Problem>
    requires index <= |regions|
    decreases |regions| - index
  {
    if index == |regions| then Success(p) else
    var next :- PlaceOne(p, regions[index], index, sha);
    PlaceFrom(next, regions, index + 1, sha)
  }

  const AT_START: Progress := Progress({}, 0, AT_FRONT, 0, [])

  /** `plan` */
  function PlanOf(regions: seq<Region>, allowRepair: bool, sha: bytes -> Digest): Result<Plan, Problem> {
    if regions == [] then Failure(NothingToCompose)
    else if regions[0].start != 0 then Failure(NoBeginning)
    else
      var end :- PlaceFrom(AT_START, regions, 0, sha);
      if end.repair != 0 && !allowRepair then Failure(NeedsRepair(end.repair))
      else Success(Plan(end.placements, end.expectedStart, end.repair))
  }

  method MakePlan(regions: seq<Region>, allowRepair: bool, sha: bytes -> Digest) returns (r: Result<Plan, Problem>)
    ensures r == PlanOf(regions, allowRepair, sha)
  {
    hide ValidRegion;
    if regions == [] {
      return Failure(NothingToCompose);
    }
    var seen: set<string> := {};
    var expectedStart := regions[0].start;
    if expectedStart != 0 {
      return Failure(NoBeginning);
    }
    var placements: seq<Placement> := [];
    var context, repairTokens := AT_FRONT, 0;
    var index: nat := 0;
    while index < |regions|
      invariant index <= |regions|
      invariant PlaceFrom(Progress(seen, expectedStart, context, repairTokens, placements), regions, index, sha)
             == PlaceFrom(AT_START, regions, 0, sha)
    {
      var region := regions[index];
      if !ValidRegion(region) {
        return Failure(BadRegion(index));
      }
      if region.name in seen {
        return Failure(NameTwice(index));
      }
      if region.start != expectedStart {
        return Failure(GapOrOverlap(index));
      }
      seen := seen + {region.name};
      expectedStart := region.end;
      var exact := region.prefilledAfter == context;
      if !exact {
        repairTokens := repairTokens + TokenCount(region);
      }
      placements := placements + [Placement(region, exact, context)];
      context := ChainDigest(context, region, sha);
      index := index + 1;
    }
    if repairTokens != 0 && !allowRepair {
      return Failure(NeedsRepair(repairTokens));
    }
    return Success(Plan(placements, expectedStart, repairTokens));
  }

  // Left contexts

  /** The chain digest behind a list of token digests. */
  function Chain(digests: seq<Digest>, sha: bytes -> Digest): Digest {
    if digests == [] then AT_FRONT else sha(Preimage(Chain(digests[..|digests| - 1], sha), digests[|digests| - 1]))
  }

  function TokenDigests(regions: seq<Region>): (d: seq<Digest>)
    ensures |d| == |regions| && forall i :: 0 <= i < |regions| ==> d[i] == regions[i].tokensDigest
  {
    seq(|regions|, i requires 0 <= i < |regions| => regions[i].tokensDigest)
  }

  /** `appendable` */
  method Appendable(existing: seq<Region>, addition: Region, sha: bytes -> Digest) returns (ok: bool)
    ensures ok <==> addition.prefilledAfter == Chain(TokenDigests(existing), sha)
  {
    var context := AT_FRONT;
    for i := 0 to |existing|
      invariant context == Chain(TokenDigests(existing[..i]), sha)
    {
      context := ChainDigest(context, existing[i], sha);
      ChainGrows(existing, i, sha);
    }
    assert existing[..|existing|] == existing;
    return addition.prefilledAfter == context;
  }

  lemma ChainGrows(regions: seq<Region>, i: nat, sha: bytes -> Digest)
    requires i < |regions|
    ensures Chain(TokenDigests(regions[..i + 1]), sha) == ChainDigest(Chain(TokenDigests(regions[..i]), sha), regions[i], sha)
  {
    var d := TokenDigests(regions[..i + 1]);
    assert d[..i] == TokenDigests(regions[..i]);
  }

  // Collision-freedom, on the contexts that are compared

  /** All the byte strings hashed on the way to a chain digest. */
  function Hashed(digests: seq<Digest>, sha: bytes -> Digest): set<bytes> {
    if digests == [] then {} else
    var front := digests[..|digests| - 1];
    Hashed(front, sha) + {Preimage(Chain(front, sha), digests[|digests| - 1])}
  }

  /** No two of these byte strings collide, and none hashes to the mark of an empty context. */
  predicate CollisionFree(preimages: set<bytes>, sha: bytes -> Digest) {
    && (forall x, y :: x in preimages && y in preimages && sha(x) == sha(y) ==> x == y)
    && (forall x :: x in preimages ==> sha(x) != AT_FRONT)
  }

  predicate FullDigests(digests: seq<Digest>) {
    forall i :: 0 <= i < |digests| ==> |digests[i]| == DIGEST_DIGITS
  }

  lemma PreimageInjective(p: Digest, d: Digest, q: Digest, e: Digest)
    requires |d| == |e| && Preimage(p, d) == Preimage(q, e)
    ensures p == q && d == e
  {
    var x, y := Preimage(p, d), Preimage(q, e);
    assert p == x[..|p|] && q == y[..|q|];
    assert d == x[|p| + 1..] && e == y[|q| + 1..];
  }

  /** Two chains have the same digest if and only if they list the same token digests in the same order. */
  lemma {:induction false} ChainsAgree(a: seq<Digest>, b: seq<Digest>, sha: bytes -> Digest)
    requires FullDigests(a) && FullDigests(b)
    requires CollisionFree(Hashed(a, sha) + Hashed(b, sha), sha)
    ensures Chain(a, sha) == Chain(b, sha) <==> a == b
    decreases |a|
  {
    if a != [] && b != [] && Chain(a, sha) == Chain(b, sha) {
      var fa, fb := a[..|a| - 1], b[..|b| - 1];
      var x := Preimage(Chain(fa, sha), a[|a| - 1]);
      var y := Preimage(Chain(fb, sha), b[|b| - 1]);
      assert x in Hashed(a, sha) && y in Hashed(b, sha);
      assert x == y;
      PreimageInjective(Chain(fa, sha), a[|a| - 1], Chain(fb, sha), b[|b| - 1]);
      ChainsAgree(fa, fb, sha);
      assert a == fa + [a[|a| - 1]] && b == fb + [b[|b| - 1]];
    }
  }

  // What a plan says

  /** Regions one after the other from token 0, each sound and with a name of its own. */
  predicate Composable(regions: seq<Region>) {
    && regions != [] && regions[0].start == 0
    && (forall i :: 0 <= i < |regions| ==> ValidRegion(regions[i]))
    && (forall i, j :: 0 <= i < j < |regions| ==> regions[i].name != regions[j].name)
    && forall i :: 0 < i < |regions| ==> regions[i].start == regions[i - 1].end
  }

  /** Token count of the regions whose recorded context is not the one they are placed behind. */
  function RepairOf(regions: seq<Region>, sha: bytes -> Digest): int {
    if regions == [] then 0 else
    var front, last := regions[..|regions| - 1], regions[|regions| - 1];
    RepairOf(front, sha) + (if last.prefilledAfter == Chain(TokenDigests(front), sha) then 0 else TokenCount(last))
  }

  predicate Reached(p: Progress, regions: seq<Region>, index: nat, sha: bytes -> Digest) {
    && index <= |regions|
    && p.seen == (set i | 0 <= i < index :: regions[i].name)
    && p.expectedStart == (if index == 0 then 0 else regions[index - 1].end)
    && p.context == Chain(TokenDigests(regions[..index]), sha)
    && p.repair == RepairOf(regions[..index], sha)
    && |p.placements| == index
    && forall i :: 0 <= i < index ==> PlacedRight(p.placements[i], regions, i, sha)
  }

  predicate PlacedRight(p: Placement, regions: seq<Region>, i: nat, sha: bytes -> Digest)
    requires i < |regions|
  {
    && p.region == regions[i]
    && p.expectedContext == Chain(TokenDigests(regions[..i]), sha)
    && p.exact == (regions[i].prefilledAfter == p.expectedContext)
  }

  /** The loop accepts a region exactly when it is sound, new and starts where the last one ended. */
  predicate Continues(regions: seq<Region>, index: nat)
    requires index < |regions|
  {
    && ValidRegion(regions[index])
    && (forall j :: 0 <= j < index ==> regions[j].name != regions[index].name)
    && regions[index].start == (if index == 0 then 0 else regions[index - 1].end)
  }

  lemma PlaceOneReaches(p: Progress, regions: seq<Region>, index: nat, sha: bytes -> Digest)
    requires index < |regions| && Reached(p, regions, index, sha)
    ensures PlaceOne(p, regions[index], index, sha).Success? <==> Continues(regions, index)
    ensures PlaceOne(p, regions[index], index, sha).Success? ==>
      Reached(PlaceOne(p, regions[index], index, sha).value, regions, index + 1, sha)
  {
    hide ValidRegion, Chain;
    var r := regions[index];
    if r.name in p.seen {
      var j :| 0 <= j < index && regions[j].name == r.name;
    }
    ChainGrows(regions, index, sha);
    assert regions[..index + 1][..index] == regions[..index];
    if PlaceOne(p, r, index, sha).Success? {
      var q := PlaceOne(p, r, index, sha).value;
      assert q.seen == set i | 0 <= i < index + 1 :: regions[i].name;
      forall i | 0 <= i < index + 1
        ensures PlacedRight(q.placements[i], regions, i, sha)
      {
        if i < index {
          assert PlacedRight(p.placements[i], regions, i, sha);
        }
      }
    }
  }

  lemma {:induction false} PlaceFromReaches(p: Progress, regions: seq<Region>, index: nat, sha: bytes -> Digest)
    requires index <= |regions| && Reached(p, regions, index, sha)
    ensures var r := PlaceFrom(p, regions, index, sha);
      && (r.Success? <==> forall i :: index <= i < |regions| ==> Continues(regions, i))
      && (r.Success? ==> Reached(r.value, regions, |regions|, sha))
    decreases |regions| - index
  {
    hide Reached, Continues, PlaceOne;
    if index < |regions| {
      PlaceOneReaches(p, regions, index, sha);
      var next := PlaceOne(p, regions[index], index, sha);
      if next.Success? {
        PlaceFromReaches(next.value, regions, index + 1, sha);
      }
    }
  }
}
