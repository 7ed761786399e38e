/** `AdmittedStore` as its one caller at a time uses it, step by step on the directory. */
module AdmittedDirectory {
  import opened Wrappers
  import opened Bytes
  import opened Sorting
  import opened AdmittedStore
  import opened AdmittedStoreRuns

  const CHUNK := 0x40_0000

  datatype Refusal =
    | DigestMismatch | SizeMismatch
    | NotAnAddress | NoManifest | ManifestUnreadable | NoObject | FactsDiffer

  /** A full SHA-256 content address: sixty-four lower-case hexadecimal digits. */
  predicate IsAddress(digest: Digest) {
    |digest| == DIGEST_DIGITS && forall i :: 0 <= i < DIGEST_DIGITS ==> 0x30 <= digest[i] <= 0x39 || 0x61 <= digest[i] <= 0x66
  }

  const HEX_DIGITS := "0123456789abcdef"

  predicate IsHexDigit(b: byte) {
    exists k :: 0 <= k < 16 && b == HEX_DIGITS[k] as int
  }

  /** An address is sixty-four of the sixteen digits, the letters in lower case. */
  lemma AddressExactly(digest: Digest)
    ensures IsAddress(digest) <==> |digest| == 64 && forall i :: 0 <= i < 64 ==> IsHexDigit(digest[i])
  {
    hide IsHexDigit;
    forall i | 0 <= i < |digest|
      ensures 0x30 <= digest[i] <= 0x39 || 0x61 <= digest[i] <= 0x66 <==> IsHexDigit(digest[i])
    {
      DigitExactly(digest[i]);
    }
  }

  lemma DigitExactly(b: byte)
    ensures 0x30 <= b <= 0x39 || 0x61 <= b <= 0x66 <==> IsHexDigit(b)
  {
    if 0x30 <= b <= 0x39 {
      assert b == HEX_DIGITS[b - 0x30] as int;
    } else if 0x61 <= b <= 0x66 {
      assert b == HEX_DIGITS[b - 0x61 + 10] as int;
    }
  }

  /** What an admission leaves resolves under its digest, to the bytes admitted, whenever the digest is hexadecimal. */
  lemma AdmittedResolves(before: State, s: State, inode: nat, file: nat, size: nat, raw: bytes, sha: bytes -> Digest)
    requires Admitted(before, s, inode, file, size, raw, sha)
    requires |sha(raw)| == 64 && forall i :: 0 <= i < 64 ==> IsHexDigit(sha(raw)[i])
    ensures IsAddress(sha(raw)) && Resolvable(s, sha(raw)) && s.inodes[s.objects[sha(raw)]].content == raw
  {
    hide IsHexDigit;
    AddressExactly(sha(raw));
  }

  class Store {
    const sha: bytes -> Digest
    var fs: State

    constructor (sha: bytes -> Digest, fs: State)
      ensures this.sha == sha && this.fs == fs
    {
      this.sha := sha;
      this.fs := fs;
    }

    ghost predicate Valid()
      reads this
    {
      Sound(fs, sha)
    }

    method Take(step: Step)
      requires Valid() && Allowed(fs, step) && Next(fs, step, sha).Some?
      modifies this
      ensures fs == Next(old(fs), step, sha).value
      ensures Valid()
    {
      StepKeeps(fs, step, sha);
      fs := Next(fs, step, sha).value;
    }

    /** `admit`: copy and hash, check the declarations, rename, take facts, write the manifest. */
    method Admit(
        raw: bytes, declaredDigest: Option<Digest>, declaredSize: Option<int>, actor: nat, inode: nat, file: nat, size: nat)
      returns (r: Result<Digest, Refusal>)
      requires Valid() && actor !in fs.actors && inode !in fs.inodes && (sha(raw), file) !in fs.files
      modifies this
      ensures Valid() && fs.actors == old(fs.actors)
      ensures r == if declaredDigest !in {None, Some(sha(raw))} then Failure(DigestMismatch)
                   else if declaredSize !in {None, Some(|raw|)} then Failure(SizeMismatch)
                   else Success(sha(raw))
      ensures r.Success? ==> Resolvable(fs, r.value) && fs.inodes[fs.objects[r.value]].content == raw
      ensures r.Success? ==> fs.objects == old(fs.objects)[r.value := inode]
      ensures r.Success? ==> fs.manifests.Keys == old(fs.manifests.Keys) + {r.value}
                             && forall d :: d != r.value ==> ManifestFacts(fs, d) == ManifestFacts(old(fs), d)
      ensures r.Success? ==> OthersKept(old(fs), fs, inode, r.value)
      ensures forall d :: (r.Success? ==> d != r.value) ==> (Resolvable(fs, d) <==> Resolvable(old(fs), d))
      ensures r.Failure? ==> fs == old(fs).(clock := fs.clock)
      ensures fs.resolved == old(fs.resolved)
    {
      hide Next, Sound, Copying, Resolvable, OthersKept;
      ghost var before := fs;
      SoundNames(fs, sha);
      BeginsCopying(fs, actor, inode, sha);
      Take(Begin(actor, inode));
      Copy(raw, actor, inode, before);
      if declaredDigest !in {None, Some(sha(raw))} || declaredSize !in {None, Some(|raw|)} {
        AbandonRestores(before, fs, actor, inode, raw, sha);
        Take(Abandon(actor));
        SameFilesResolve(before, fs);
        return Failure(if declaredDigest !in {None, Some(sha(raw))} then DigestMismatch else SizeMismatch);
      }
      Finish(raw, declaredDigest, declaredSize, actor, inode, file, size, before);
      OthersResolveAlike(before, fs, inode, FileFor(before, sha(raw), file), size, raw, sha);
      return Success(sha(raw));
    }

    method Finish(
        raw: bytes, declaredDigest: Option<Digest>, declaredSize: Option<int>, actor: nat, inode: nat, file: nat, size: nat,
        ghost before: State)
      requires Valid() && Copying(before, fs, actor, inode, raw) && actor !in before.actors && (sha(raw), file) !in before.files
      requires declaredDigest in {None, Some(sha(raw))} && declaredSize in {None, Some(|raw|)}
      modifies this
      ensures Valid() && Admitted(before, fs, inode, FileFor(before, sha(raw), file), size, raw, sha)
    {
      hide Next, Sound, Copying, Admitted;
      var chosen := FileFor(fs, sha(raw), file);
      FinishPublishes(before, fs, actor, inode, file, size, raw, declaredDigest, declaredSize, sha);
      Take(Seal(actor, declaredDigest, declaredSize));
      Take(Publish(actor));
      Take(Pin(actor));
      Take(OpenManifest(actor, chosen));
      Take(WriteBody(actor, size));
      Take(RenameManifest(actor));
    }

    method Copy(raw: bytes, actor: nat, inode: nat, ghost before: State)
      requires Valid() && Copying(before, fs, actor, inode, [])
      modifies this
      ensures Valid() && Copying(before, fs, actor, inode, raw)
    {
      hide Next, Sound, Copying;
      var position: nat := 0;
      while position < |raw|
        invariant position <= |raw|
        invariant Valid() && Copying(before, fs, actor, inode, raw[..position])
      {
        var block := ReadAt(raw, position, CHUNK);
        CanCopy(before, fs, actor, inode, raw[..position], block, sha);
        Take(Block(actor, block));
        assert raw[..position] + block == raw[..position + |block|];
        position := position + |block|;
      }
      assert raw[..position] == raw;
    }

    /** `resolve`: nothing is rehashed, and the manifest and the object are read in two steps. */
    method Resolve(digest: Digest, actor: nat) returns (r: Result<bytes, Refusal>)
      requires Valid() && actor !in fs.actors
      modifies this
      ensures Valid() && fs == old(fs).(resolved := fs.resolved)
      ensures r.Success? <==> IsAddress(digest) && Resolvable(fs, digest)
      ensures r.Success? ==> r.value == fs.inodes[fs.objects[digest]].content && sha(r.value) == digest
      ensures r.Success? ==> fs.resolved == old(fs.resolved) + [(digest, r.value)]
      ensures r.Failure? ==> fs.resolved == old(fs.resolved)
      ensures r == Failure(NotAnAddress) <==> !IsAddress(digest)
      ensures r == Failure(NoManifest) <==> IsAddress(digest) && digest !in fs.manifests
      ensures r == Failure(ManifestUnreadable) <==> IsAddress(digest) && digest in fs.manifests && ManifestFacts(fs, digest).None?
      ensures r == Failure(NoObject) <==> IsAddress(digest) && ManifestFacts(fs, digest).Some? && digest !in fs.objects
    {
      hide Sound, Next;
      if !IsAddress(digest) {
        return Failure(NotAnAddress);
      }
      if digest !in fs.manifests {
        return Failure(NoManifest);
      }
      if ManifestFacts(fs, digest).None? {
        return Failure(ManifestUnreadable);
      }
      ReadsThenOpens(fs, actor, digest, sha);
      Take(ReadManifest(actor, digest));
      var facts := fs.actors[actor].facts;
      var found := Matches(fs, digest, facts);
      var here := digest in fs.objects;
      Take(OpenObject(actor));
      if !here {
        return Failure(NoObject);
      }
      if !found {
        return Failure(FactsDiffer);
      }
      ResolvableSound(fs, digest, sha);
      return Success(fs.inodes[fs.objects[digest]].content);
    }

    /** `list_objects`: every digest with a manifest is resolved, in order of name, and refusals are left out. */
    method ListObjects(actor: nat) returns (found: seq<Digest>)
      requires Valid() && actor !in fs.actors
      modifies this
      ensures Valid() && fs == old(fs).(resolved := fs.resolved)
      ensures forall d :: d in found <==> IsAddress(d) && Resolvable(fs, d)
      ensures Ordered(found, NameLe) && forall i, j :: 0 <= i < j < |found| ==> found[i] != found[j]
    {
      hide Sound, Next, IsAddress, Matches, NameLe, Sorted;
      var names := InOrder(fs.manifests.Keys);
      found := [];
      var i: nat := 0;
      while i < |names|
        invariant i <= |names|
        invariant Valid() && fs == old(fs).(resolved := fs.resolved)
        invariant forall d :: d in found <==> d in names[..i] && IsAddress(d) && Resolvable(fs, d)
        invariant Ordered(found, NameLe) && forall a, b :: 0 <= a < b < |found| ==> found[a] != found[b]
      {
        var digest := names[i];
        ghost var before := fs;
        var r := Resolve(digest, actor);
        SameDirectory(before, fs);
        assert names[..i + 1] == names[..i] + [digest];
        if r.Success? {
          StaysInOrder(names, i, found);
          found := found + [digest];
        }
        i := i + 1;
      }
      assert names[..i] == names;
    }
  }

  lemma ReadsThenOpens(s: State, actor: nat, digest: Digest, sha: bytes -> Digest)
    requires actor !in s.actors && ManifestFacts(s, digest).Some?
    ensures ReadsAndOpens(s, actor, digest, ManifestFacts(s, digest).value, sha)
  {
    var facts := ManifestFacts(s, digest).value;
    var t := Next(s, ReadManifest(actor, digest), sha).value;
    assert t == Becomes(s, actor, Resolving(digest, facts));
    assert t.actors - {actor} == s.actors;
  }

  predicate ReadsAndOpens(s: State, actor: nat, digest: Digest, facts: Facts, sha: bytes -> Digest) {
    && Next(s, ReadManifest(actor, digest), sha) == Some(Becomes(s, actor, Resolving(digest, facts)))
    && (Matches(Becomes(s, actor, Resolving(digest, facts)), digest, facts) <==> Matches(s, digest, facts))
    && Next(Becomes(s, actor, Resolving(digest, facts)), OpenObject(actor), sha) == Some(AfterOpening(s, digest, facts))
  }

  function AfterOpening(s: State, digest: Digest, facts: Facts): State {
    if Matches(s, digest, facts)
    then s.(resolved := s.resolved + [(digest, s.inodes[s.objects[digest]].content)])
    else s
  }

  /** The order of the names, which are ASCII. */
  predicate NameLe(a: Digest, b: Digest) {
    LexLe(a, b)
  }

  /** `sorted` of names that are all different. */
  method InOrder(names: set<Digest>) returns (s: seq<Digest>)
    ensures Ordered(s, NameLe) && forall i, j :: 0 <= i < j < |s| ==> s[i] != s[j]
    ensures forall d :: d in s <==> d in names
  {
    hide NameLe, Sorted;
    var listed: seq<Digest> := [];
    var rest := names;
    while rest != {}
      invariant rest <= names && multiset(listed) == multiset(names - rest)
      decreases |rest|
    {
      var d :| d in rest;
      listed := listed + [d];
      assert names - (rest - {d}) == (names - rest) + {d};
      rest := rest - {d};
    }
    assert names - rest == names;
    s := Sorted(listed, NameLe);
    LexIsTotal();
    SortedIsOrdered(listed, NameLe);
    SortedIsPermutation(listed, NameLe);
    EachOnce(s, names);
  }

  lemma LexIsTotal()
    ensures TotalPreorder(NameLe)
  {
    forall x: Digest, y: Digest
      ensures NameLe(x, y) || NameLe(y, x)
    {
      LexTotal(x, y);
    }
    forall x: Digest, y: Digest, z: Digest | NameLe(x, y) && NameLe(y, z)
      ensures NameLe(x, z)
    {
      LexTransitive(x, y, z);
    }
  }

  lemma EachOnce(s: seq<Digest>, names: set<Digest>)
    requires multiset(s) == multiset(names)
    ensures forall d :: d in s <==> d in names
    ensures forall i, j :: 0 <= i < j < |s| ==> s[i] != s[j]
  {
    forall d
      ensures d in s <==> d in names
    {
      assert d in s <==> d in multiset(s);
    }
    forall i, j | 0 <= i < j < |s|
      ensures s[i] != s[j]
    {
      if s[i] == s[j] {
        RepeatsCount(s, i, j);
        assert false;
      }
    }
  }

  lemma RepeatsCount(s: seq<Digest>, i: nat, j: nat)
    requires i < j < |s| && s[i] == s[j]
    ensures multiset(s)[s[i]] >= 2
  {
    assert s == s[..i] + [s[i]] + s[i + 1..j] + [s[i]] + s[j + 1..];
  }

  /** What has been found so far comes before the next name, and is not it. */
  lemma StaysInOrder(names: seq<Digest>, i: nat, found: seq<Digest>)
    requires i < |names| && Ordered(names, NameLe) && forall a, b :: 0 <= a < b < |names| ==> names[a] != names[b]
    requires forall d :: d in found ==> d in names[..i]
    requires Ordered(found, NameLe) && forall a, b :: 0 <= a < b < |found| ==> found[a] != found[b]
    ensures Ordered(found + [names[i]], NameLe)
    ensures forall a, b :: 0 <= a < b < |found| + 1 ==> (found + [names[i]])[a] != (found + [names[i]])[b]
  {
    hide NameLe;
    forall a | 0 <= a < |found|
      ensures NameLe(found[a], names[i]) && found[a] != names[i]
    {
      assert found[a] in found;
      var k :| 0 <= k < i && names[..i][k] == found[a];
      assert names[k] == found[a];
    }
  }

  lemma SameDirectory(s: State, t: State)
    requires t == s.(resolved := t.resolved)
    ensures forall d :: Resolvable(t, d) == Resolvable(s, d)
  {
  }

  lemma SameFilesResolve(s: State, t: State)
    requires t.inodes == s.inodes && t.objects == s.objects && t.manifests == s.manifests && t.files == s.files
    ensures forall d :: Resolvable(t, d) == Resolvable(s, d)
  {
  }

  /** Every file but the new one and the one whose name it took is as it was. */
  predicate OthersKept(before: State, s: State, inode: nat, digest: Digest) {
    && (forall i :: i in before.inodes && (digest in before.objects ==> i != before.objects[digest]) ==>
          i in s.inodes && s.inodes[i] == before.inodes[i])
    && forall i :: i in s.inodes ==> i == inode || i in before.inodes
  }

  /** The temporary manifest an admission opens: the one left there, or a new one. */
  function FileFor(s: State, digest: Digest, unused: nat): nat {
    if digest in s.pending then s.pending[digest] else unused
  }

  lemma OthersResolveAlike(before: State, s: State, inode: nat, file: nat, size: nat, raw: bytes, sha: bytes -> Digest)
    requires NamesSound(before) && Admitted(before, s, inode, file, size, raw, sha)
    ensures forall d :: d != sha(raw) ==> ManifestFacts(s, d) == ManifestFacts(before, d)
    ensures forall d :: d != sha(raw) ==> (Resolvable(s, d) <==> Resolvable(before, d))
  {
  }

  /** An admission has copied this much into its temporary file and changed nothing else. */
  predicate Copying(before: State, s: State, actor: nat, inode: nat, copied: bytes) {
    && s.objects == before.objects && s.resolved == before.resolved
    && s.manifests == before.manifests && s.pending == before.pending && s.files == before.files
    && s.actors == before.actors[actor := Writing(inode, copied)]
    && inode !in before.inodes && inode in s.inodes && s.inodes - {inode} == before.inodes
    && s.inodes[inode].content == copied && s.inodes[inode].nlink == 1
  }

  lemma CanCopy(before: State, s: State, actor: nat, inode: nat, copied: bytes, block: bytes, sha: bytes -> Digest)
    requires Copying(before, s, actor, inode, copied)
    ensures var t := Next(s, Block(actor, block), sha); t.Some? && Copying(before, t.value, actor, inode, copied + block)
  {
    WriteAtEnd(copied, block);
  }

  lemma BeginsCopying(before: State, actor: nat, inode: nat, sha: bytes -> Digest)
    requires actor !in before.actors && inode !in before.inodes
    ensures var t := Next(before, Begin(actor, inode), sha); t.Some? && Copying(before, t.value, actor, inode, [])
    ensures Allowed(before, Begin(actor, inode))
  {
  }

  lemma AbandonRestores(before: State, s: State, actor: nat, inode: nat, copied: bytes, sha: bytes -> Digest)
    requires Copying(before, s, actor, inode, copied) && actor !in before.actors
    ensures var t := Next(s, Abandon(actor), sha);
      t.Some? && t.value == before.(clock := t.value.clock)
  {
    assert s.actors - {actor} == before.actors;
  }

  /** The last steps of an admission, from a complete copy to a resolvable object. */
  lemma FinishPublishes(before: State, s: State, actor: nat, inode: nat, file: nat, size: nat, raw: bytes,
                        dd: Option<Digest>, ds: Option<int>, sha: bytes -> Digest)
    requires Sound(s, sha) && Copying(before, s, actor, inode, raw) && actor !in before.actors && (sha(raw), file) !in before.files
    requires dd in {None, Some(sha(raw))} && ds in {None, Some(|raw|)}
    ensures FileFor(before, sha(raw), file) == FileFor(s, sha(raw), file)
    ensures FinishesWith(before, s, actor, inode, FileFor(s, sha(raw), file), size, raw, dd, ds, sha)
  {
    hide Next, Sound, Resolvable, NamesSound, OthersKept, Matches;
    var digest := sha(raw);
    SoundNames(s, sha);
    var s1 := SealCopied(before, s, actor, inode, raw, dd, ds, sha);
    var s2 := PublishCopied(before, s1, actor, inode, raw, sha);
    var s3, s6 := PinAndRecord(before, s2, actor, digest, FileFor(s, digest, file), size, sha);
    assert s6.actors == before.actors;
    IsResolvable(s6, digest, FactsOf(inode, s2.inodes[inode]));
    SameFilesKept(before, s2, s6, inode, digest);
  }

  lemma PinAndRecord(before: State, s: State, actor: nat, digest: Digest, file: nat, size: nat, sha: bytes -> Digest)
    returns (t: State, u: State)
    requires actor in s.actors && s.actors[actor] == Published(digest)
    requires digest in s.objects && s.objects[digest] in s.inodes && MayOpen(s, digest, file)
    ensures Next(s, Pin(actor), sha) == Some(t) && Records(t, u, actor, file, size, sha)
    ensures var facts := FactsOf(s.objects[digest], s.inodes[s.objects[digest]]);
      && u == OnceRecorded(s, actor, digest, facts, file, size)
      && Matches(u, digest, facts)
  {
    var facts := FactsOf(s.objects[digest], s.inodes[s.objects[digest]]);
    hide Next, Records;
    t := PinsFacts(s, actor, digest, sha);
    u := RecordsInto(t, actor, digest, facts, file, size, sha);
    assert u.actors == s.actors - {actor};
  }

  lemma PinsFacts(s: State, actor: nat, digest: Digest, sha: bytes -> Digest) returns (t: State)
    requires actor in s.actors && s.actors[actor] == Published(digest)
    requires digest in s.objects && s.objects[digest] in s.inodes
    ensures Next(s, Pin(actor), sha) == Some(t)
    ensures t == Becomes(s, actor, Pinned(digest, FactsOf(s.objects[digest], s.inodes[s.objects[digest]])))
  {
    t := Next(s, Pin(actor), sha).value;
  }

  lemma SameFilesKept(before: State, s: State, t: State, inode: nat, digest: Digest)
    requires OthersKept(before, s, inode, digest) && t.inodes == s.inodes
    ensures OthersKept(before, t, inode, digest)
  {
  }

  predicate FinishesWith(before: State, s: State, actor: nat, inode: nat, file: nat, size: nat, raw: bytes,
                         dd: Option<Digest>, ds: Option<int>, sha: bytes -> Digest) {
    var s1 := Next(s, Seal(actor, dd, ds), sha);
    if s1.None? then false else
    var s2 := Next(s1.value, Publish(actor), sha);
    if s2.None? then false else
    var s3 := Next(s2.value, Pin(actor), sha);
    if s3.None? then false else
    var s4 := Next(s3.value, OpenManifest(actor, file), sha);
    if s4.None? then false else
    var s5 := Next(s4.value, WriteBody(actor, size), sha);
    if s5.None? then false else
    var s6 := Next(s5.value, RenameManifest(actor), sha);
    s6.Some? && Admitted(before, s6.value, inode, file, size, raw, sha)
  }

  lemma SealCopied(before: State, s: State, actor: nat, inode: nat, raw: bytes, dd: Option<Digest>, ds: Option<int>, sha: bytes -> Digest)
    returns (t: State)
    requires NamesSound(s) && Copying(before, s, actor, inode, raw)
    requires dd in {None, Some(sha(raw))} && ds in {None, Some(|raw|)}
    ensures Next(s, Seal(actor, dd, ds), sha) == Some(t)
    ensures Copied(before, t, actor, inode, raw, sha)
  {
    hide Touch;
    assert TmpOf(s.actors[actor]) == Some(inode);
    TouchedFile(s, inode, raw, s.inodes[inode].mtime, s.inodes[inode].nlink);
    t := Next(s, Seal(actor, dd, ds), sha).value;
  }

  lemma IsResolvable(s: State, digest: Digest, facts: Facts)
    requires ManifestFacts(s, digest) == Some(facts) && Matches(s, digest, facts)
    ensures Resolvable(s, digest)
  {
  }

  predicate Admitted(before: State, s: State, inode: nat, file: nat, size: nat, raw: bytes, sha: bytes -> Digest) {
    && s.actors == before.actors && s.resolved == before.resolved
    && s.objects == before.objects[sha(raw) := inode]
    && s.manifests == before.manifests[sha(raw) := file] && s.pending == before.pending - {sha(raw)}
    && inode in s.inodes && s.files == before.files[(sha(raw), file) := Body(Some(FactsOf(inode, s.inodes[inode])), size)]
    && s.inodes[inode].content == raw && Resolvable(s, sha(raw))
    && OthersKept(before, s, inode, sha(raw))
  }

  predicate Copied(before: State, s: State, actor: nat, inode: nat, raw: bytes, sha: bytes -> Digest) {
    && s.objects == before.objects && s.resolved == before.resolved
    && s.manifests == before.manifests && s.pending == before.pending && s.files == before.files
    && s.actors == before.actors[actor := Sealed(inode, sha(raw))]
    && inode in s.inodes && s.inodes[inode].content == raw
    && (sha(raw) in s.objects ==> s.objects[sha(raw)] != inode)
    && s.inodes - {inode} == before.inodes
  }

  lemma PublishCopied(before: State, s: State, actor: nat, inode: nat, raw: bytes, sha: bytes -> Digest) returns (t: State)
    requires Copied(before, s, actor, inode, raw, sha)
    ensures Next(s, Publish(actor), sha) == Some(t)
    ensures t.objects == before.objects[sha(raw) := inode] && t.resolved == before.resolved
    ensures t.manifests == before.manifests && t.pending == before.pending && t.files == before.files
    ensures t.actors == before.actors[actor := Published(sha(raw))]
    ensures inode in t.inodes && t.inodes[inode].content == raw
    ensures OthersKept(before, t, inode, sha(raw))
  {
    hide Unlink, Touch;
    t := Next(s, Publish(actor), sha).value;
    var freed := if sha(raw) in s.objects then Unlink(s, s.objects[sha(raw)]) else s;
    if sha(raw) in s.objects {
      UnlinkFrame(s, s.objects[sha(raw)]);
      UnlinkOther(s, s.objects[sha(raw)], inode);
    }
    TouchedFile(freed, inode, s.inodes[inode].content, s.inodes[inode].mtime, s.inodes[inode].nlink);
    forall i | i in before.inodes && (sha(raw) in before.objects ==> i != before.objects[sha(raw)])
      ensures i in t.inodes && t.inodes[i] == before.inodes[i]
    {
      assert i in s.inodes - {inode};
      if sha(raw) in s.objects {
        UnlinkOther(s, s.objects[sha(raw)], i);
      }
    }
    forall i | i in t.inodes
      ensures i == inode || i in before.inodes
    {
      if sha(raw) in s.objects {
        UnlinkAdds(s, s.objects[sha(raw)], i);
      }
      assert i != inode ==> i in s.inodes - {inode};
    }
  }

  lemma UnlinkAdds(s: State, inode: nat, i: nat)
    requires i in Unlink(s, inode).inodes
    ensures i in s.inodes
  {
  }
}
