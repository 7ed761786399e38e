/**
 * The store of admitted raw states: `kv_rosetta/admitted_store.py`, with the eviction of
 * `kv_rosetta/daemon/capture.py` as another actor on the same directory.
 *
 * The directory is a state; an admission, a resolution and an eviction are actors that advance
 * by steps. Steps of different actors interleave freely and an actor may vanish at any point.
 * Every change to a file, content or links, gives it a change time never given before.
 */
module AdmittedStore {
  import opened Wrappers
  import opened Bytes

  datatype Inode = Inode(content: bytes, mtime: int, ctime: nat, nlink: nat)

  /** `_file_facts`; the device is one constant, since everything lies in one directory. */
  datatype Facts = Facts(inode: nat, size: nat, mtime: int, ctime: nat, nlink: nat)

  datatype Actor =
    | Writing(tmp: nat, hashed: bytes)          // admit: blocks copied and hashed so far
    | Sealed(tmp: nat, digest: Digest)          // admit: declarations checked, not yet renamed
    | Published(digest: Digest)                 // admit: renamed, facts not yet taken
    | Pinned(digest: Digest, facts: Facts)      // admit: facts taken, manifest not yet opened
    | Recording(digest: Digest, facts: Facts, file: nat) // admit: temporary manifest opened, not yet written
    | Recorded(digest: Digest, facts: Facts, file: nat)  // admit: manifest written, not yet renamed
    | Resolving(digest: Digest, facts: Facts)   // resolve: manifest read, object not yet opened
    | Evicting(digest: Digest)                  // prune: object unlinked, manifest not yet

  /** What a manifest file holds: nothing readable, or the facts pinned for its digest. */
  datatype Body = Body(facts: Option<Facts>, size: nat)

  datatype State = State(
    clock: nat,
    inodes: map<nat, Inode>,
    objects: map<Digest, nat>,
    manifests: map<Digest, nat>,      // which of the files made for a digest has the manifest's name
    pending: map<Digest, nat>,        // which has the temporary name, one for all admissions of the digest
    files: map<(Digest, nat), Body>,  // every manifest file ever made
    actors: map<nat, Actor>,
    resolved: seq<(Digest, bytes)>) // every resolution that succeeded, with the bytes it found

  datatype Step =
    | Begin(actor: nat, inode: nat)
    | Block(actor: nat, block: bytes)
    | Seal(actor: nat, declaredDigest: Option<Digest>, declaredSize: Option<int>)
    | Publish(actor: nat)
    | Pin(actor: nat)
    | OpenManifest(actor: nat, file: nat)
    | WriteBody(actor: nat, size: nat)
    | RenameManifest(actor: nat)
    | Abandon(actor: nat)
    | Crash(actor: nat)
    | EvictObject(actor: nat, digest: Digest)
    | EvictManifest(actor: nat)
    | ReadManifest(actor: nat, digest: Digest)
    | OpenObject(actor: nat)
    | Overwrite(inode: nat, content: bytes, mtime: int) // somebody else rewrites a file
    | HardLink(inode: nat)                              // somebody else links it under another name

  function FactsOf(inode: nat, node: Inode): Facts {
    Facts(inode, |node.content|, node.mtime, node.ctime, node.nlink)
  }

  // Files

  /** The file takes the given content, links and modification time, and a new change time. */
  function Touch(s: State, inode: nat, content: bytes, mtime: int, nlink: nat): State {
    s.(clock := s.clock + 1, inodes := s.inodes[inode := Inode(content, mtime, s.clock, nlink)])
  }

  /** One name of the file goes; the last one takes the file along. */
  function Unlink(s: State, inode: nat): State {
    if inode !in s.inodes then s
    else if s.inodes[inode].nlink <= 1 then s.(inodes := s.inodes - {inode})
    else Touch(s, inode, s.inodes[inode].content, s.inodes[inode].mtime, s.inodes[inode].nlink - 1)
  }

  /** `write` at the position reached so far. */
  function WriteAt(content: bytes, position: nat, block: bytes): bytes {
    var front := if position <= |content| then content[..position] else content + seq(position - |content|, i => 0);
    front + block + (if position + |block| <= |content| then content[position + |block|..] else [])
  }

  /** A body written from the front of a file: what a longer earlier one leaves behind it cannot be read. */
  function WrittenOver(s: State, digest: Digest, file: nat, facts: Facts, size: nat): Body {
    if (digest, file) in s.files && s.files[(digest, file)].size > size
    then Body(None, s.files[(digest, file)].size)
    else Body(Some(facts), size)
  }

  /** The facts in the manifest of a digest, if it has one that can be read. */
  function ManifestFacts(s: State, digest: Digest): Option<Facts> {
    if digest in s.manifests && (digest, s.manifests[digest]) in s.files
    then s.files[(digest, s.manifests[digest])].facts else None
  }

  function Done(s: State, actor: nat): State {
    s.(actors := s.actors - {actor})
  }

  function Becomes(s: State, actor: nat, now: Actor): State {
    s.(actors := s.actors[actor := now])
  }

  /** The next state, or None where the step cannot be taken. */
  function Next(s: State, step: Step, sha: bytes -> Digest): Option<State> {
    match step
    case Begin(a, inode) =>
      if a in s.actors || inode in s.inodes then None
      else Some(Becomes(Touch(s, inode, [], s.clock, 1), a, Writing(inode, [])))
    case Block(a, block) =>
      if a !in s.actors || !s.actors[a].Writing? || s.actors[a].tmp !in s.inodes then None
      else
        var Writing(tmp, hashed) := s.actors[a];
        var node := s.inodes[tmp];
        Some(Becomes(Touch(s, tmp, WriteAt(node.content, |hashed|, block), s.clock, node.nlink), a, Writing(tmp, hashed + block)))
    case Seal(a, declaredDigest, declaredSize) =>
      if a !in s.actors || !s.actors[a].Writing? || s.actors[a].tmp !in s.inodes then None
      else
        var Writing(tmp, hashed) := s.actors[a];
        if declaredDigest !in {None, Some(sha(hashed))} || declaredSize !in {None, Some(|hashed|)} then None
        else Some(Becomes(Touch(s, tmp, s.inodes[tmp].content, s.inodes[tmp].mtime, s.inodes[tmp].nlink), a, Sealed(tmp, sha(hashed))))
    case Publish(a) =>
      if a !in s.actors || !s.actors[a].Sealed? || s.actors[a].tmp !in s.inodes then None
      else
        var Sealed(tmp, digest) := s.actors[a];
        var freed := if digest in s.objects then Unlink(s, s.objects[digest]) else s;
        var node := s.inodes[tmp];
        var moved := Touch(freed, tmp, node.content, node.mtime, node.nlink);
        Some(Becomes(moved.(objects := s.objects[digest := tmp]), a, Published(digest)))
    case Pin(a) =>
      if a !in s.actors || !s.actors[a].Published? then None
      else
        var digest := s.actors[a].digest;
        if digest !in s.objects || s.objects[digest] !in s.inodes then None
        else Some(Becomes(s, a, Pinned(digest, FactsOf(s.objects[digest], s.inodes[s.objects[digest]]))))
    case OpenManifest(a, file) =>
      // made anew, or the one that is there truncated
      if a !in s.actors || !s.actors[a].Pinned? then None
      else
        var Pinned(digest, facts) := s.actors[a];
        if (if digest in s.pending then file != s.pending[digest] else (digest, file) in s.files) then None
        else Some(Becomes(s.(pending := s.pending[digest := file], files := s.files[(digest, file) := Body(None, 0)]),
                          a, Recording(digest, facts, file)))
    case WriteBody(a, size) =>
      if a !in s.actors || !s.actors[a].Recording? then None
      else
        var Recording(digest, facts, file) := s.actors[a];
        Some(Becomes(s.(files := s.files[(digest, file) := WrittenOver(s, digest, file, facts, size)]), a, Recorded(digest, facts, file)))
    case RenameManifest(a) =>
      if a !in s.actors || !s.actors[a].Recorded? || s.actors[a].digest !in s.pending then None
      else
        var digest := s.actors[a].digest;
        Some(Done(s.(manifests := s.manifests[digest := s.pending[digest]], pending := s.pending - {digest}), a))
    case Abandon(a) =>
      // an exception in `admit`: the temporary name goes, if it is still there
      if a !in s.actors then None
      else if s.actors[a].Writing? || s.actors[a].Sealed? then Some(Done(Unlink(s, s.actors[a].tmp), a))
      else Some(Done(s, a))
    case Crash(a) =>
      if a !in s.actors then None else Some(Done(s, a))
    case EvictObject(a, digest) =>
      if a in s.actors || digest !in s.objects then None
      else
        var freed := Unlink(s, s.objects[digest]);
        Some(Becomes(freed.(objects := s.objects - {digest}), a, Evicting(digest)))
    case EvictManifest(a) =>
      if a !in s.actors || !s.actors[a].Evicting? then None
      else Some(Done(s.(manifests := s.manifests - {s.actors[a].digest}), a))
    case ReadManifest(a, digest) =>
      var facts := ManifestFacts(s, digest);
      if a in s.actors || facts.None? then None
      else Some(Becomes(s, a, Resolving(digest, facts.value)))
    case OpenObject(a) =>
      if a !in s.actors || !s.actors[a].Resolving? then None
      else
        var Resolving(digest, facts) := s.actors[a];
        if Matches(s, digest, facts)
        then Some(Done(s.(resolved := s.resolved + [(digest, s.inodes[s.objects[digest]].content)]), a))
        else Some(Done(s, a))
    case Overwrite(inode, content, mtime) =>
      if inode !in s.inodes then None else Some(Touch(s, inode, content, mtime, s.inodes[inode].nlink))
    case HardLink(inode) =>
      if inode !in s.inodes then None
      else Some(Touch(s, inode, s.inodes[inode].content, s.inodes[inode].mtime, s.inodes[inode].nlink + 1))
  }

  /** The object under this name has exactly these facts: the last check of `resolve`. */
  predicate Matches(s: State, digest: Digest, facts: Facts) {
    digest in s.objects && s.objects[digest] in s.inodes
    && FactsOf(s.objects[digest], s.inodes[s.objects[digest]]) == facts
  }

  /** An admission gets past its declarations if and only if those made are true of what was copied. */
  lemma SealsExactly(s: State, actor: nat, declaredDigest: Option<Digest>, declaredSize: Option<int>, sha: bytes -> Digest)
    requires actor in s.actors && s.actors[actor].Writing? && s.actors[actor].tmp in s.inodes
    ensures
      var copied := s.actors[actor].hashed;
      Next(s, Seal(actor, declaredDigest, declaredSize), sha).Some? <==>
      && (declaredDigest.Some? ==> declaredDigest.value == sha(copied))
      && (declaredSize.Some? ==> declaredSize.value == |copied|)
  {
  }

  // The invariant

  /** Facts recorded for a digest: they lie in the past, and a file that has them holds the right bytes. */
  predicate ClaimSound(s: State, digest: Digest, facts: Facts, sha: bytes -> Digest) {
    && facts.ctime < s.clock
    && (facts.inode in s.inodes && FactsOf(facts.inode, s.inodes[facts.inode]) == facts ==>
          sha(s.inodes[facts.inode].content) == digest)
  }

  predicate ActorSound(s: State, actor: Actor, sha: bytes -> Digest) {
    match actor
    case Writing(tmp, hashed) => tmp in s.inodes && s.inodes[tmp].content == hashed
    case Sealed(tmp, digest) => tmp in s.inodes && sha(s.inodes[tmp].content) == digest
    case Published(digest) => digest in s.objects && s.objects[digest] in s.inodes ==>
        sha(s.inodes[s.objects[digest]].content) == digest
    case Pinned(digest, facts) => ClaimSound(s, digest, facts, sha)
    case Recording(digest, facts, _) => ClaimSound(s, digest, facts, sha)
    case Recorded(digest, facts, _) => ClaimSound(s, digest, facts, sha)
    case Resolving(digest, facts) => ClaimSound(s, digest, facts, sha)
    case Evicting(_) => true
  }

  function TmpOf(actor: Actor): Option<nat> {
    if actor.Writing? || actor.Sealed? then Some(actor.tmp) else None
  }

  /** Each file of the directory has one name there, a temporary one or a digest. */
  predicate NamesSound(s: State) {
    && (forall d :: d in s.objects ==> s.objects[d] in s.inodes)
    && (forall d, e :: d in s.objects && e in s.objects && d != e ==> s.objects[d] != s.objects[e])
    && (forall a, d :: a in s.actors && d in s.objects ==> TmpOf(s.actors[a]) != Some(s.objects[d]))
    && (forall a, b :: a in s.actors && b in s.actors && a != b && TmpOf(s.actors[a]).Some? ==>
          TmpOf(s.actors[a]) != TmpOf(s.actors[b]))
  }

  predicate TimesSound(s: State) {
    forall i :: i in s.inodes ==> s.inodes[i].ctime < s.clock
  }

  ghost predicate Sound(s: State, sha: bytes -> Digest) {
    && NamesSound(s)
    && TimesSound(s)
    && (forall f :: f in s.files && s.files[f].facts.Some? ==> ClaimSound(s, f.0, s.files[f].facts.value, sha))
    && (forall a :: a in s.actors ==> ActorSound(s, s.actors[a], sha))
    && (forall k :: 0 <= k < |s.resolved| ==> sha(s.resolved[k].1) == s.resolved[k].0)
  }

  // What one step keeps

  /** Every file is as it was or carries a change time of its own. */
  predicate Evolved(s: State, t: State) {
    && s.clock <= t.clock
    && forall i :: i in t.inodes ==>
         || (i in s.inodes && t.inodes[i] == s.inodes[i])
         || s.clock <= t.inodes[i].ctime < t.clock
  }

  lemma ClaimKept(s: State, t: State, digest: Digest, facts: Facts, sha: bytes -> Digest)
    requires Evolved(s, t) && ClaimSound(s, digest, facts, sha)
    ensures ClaimSound(t, digest, facts, sha)
  {
  }

  /** Files that keep their contents, whatever happens to their links and times. */
  predicate ContentsKept(s: State, t: State) {
    forall i :: i in t.inodes && i in s.inodes ==> t.inodes[i].content == s.inodes[i].content
  }

  /** The file behind a temporary name or an open window is still there, with its content. */
  predicate ActorUndisturbed(s: State, t: State, actor: Actor) {
    && (forall i :: TmpOf(actor) == Some(i) && i in s.inodes ==> i in t.inodes && t.inodes[i].content == s.inodes[i].content)
    && (forall d :: actor == Published(d) && d in t.objects && t.objects[d] in t.inodes ==>
          d in s.objects && t.objects[d] == s.objects[d] && s.objects[d] in s.inodes
          && t.inodes[s.objects[d]].content == s.inodes[s.objects[d]].content)
  }

  lemma ActorKept(s: State, t: State, actor: Actor, sha: bytes -> Digest)
    requires Evolved(s, t) && ActorSound(s, actor, sha) && ActorUndisturbed(s, t, actor)
    ensures ActorSound(t, actor, sha)
  {
    if actor.Pinned? || actor.Recording? || actor.Recorded? || actor.Resolving? {
      ClaimKept(s, t, actor.digest, actor.facts, sha);
    }
  }

  lemma TouchEvolves(s: State, inode: nat, content: bytes, mtime: int, nlink: nat)
    requires TimesSound(s)
    ensures var t := Touch(s, inode, content, mtime, nlink); Evolved(s, t) && TimesSound(t)
  {
  }

  lemma UnlinkEvolves(s: State, inode: nat)
    requires TimesSound(s)
    ensures var t := Unlink(s, inode); Evolved(s, t) && TimesSound(t) && ContentsKept(s, t)
    ensures forall i :: i in s.inodes && i != inode ==> i in Unlink(s, inode).inodes
    ensures forall i :: i in Unlink(s, inode).inodes ==> i in s.inodes
  {
    if inode in s.inodes && s.inodes[inode].nlink > 1 {
      TouchEvolves(s, inode, s.inodes[inode].content, s.inodes[inode].mtime, s.inodes[inode].nlink - 1);
    }
  }

  /** Manifest files are as they were, or hold a claim that is sound. */
  predicate FilesKept(s: State, t: State, sha: bytes -> Digest) {
    forall f :: f in t.files && t.files[f].facts.Some? ==>
      (f in s.files && t.files[f] == s.files[f]) || ClaimSound(t, f.0, t.files[f].facts.value, sha)
  }

  /** Enough for a step by one actor: the names stay sound, the others are undisturbed, what is new is sound. */
  lemma KeepsSound(s: State, t: State, mover: nat, sha: bytes -> Digest)
    requires Sound(s, sha) && Evolved(s, t) && TimesSound(t) && NamesSound(t)
    requires forall b :: b in t.actors && b != mover ==>
      b in s.actors && t.actors[b] == s.actors[b] && (ActorUndisturbed(s, t, s.actors[b]) || ActorSound(t, s.actors[b], sha))
    requires mover in t.actors ==> ActorSound(t, t.actors[mover], sha)
    requires FilesKept(s, t, sha)
    requires forall k :: 0 <= k < |t.resolved| ==> sha(t.resolved[k].1) == t.resolved[k].0
    ensures Sound(t, sha)
  {
    hide ClaimSound, ActorUndisturbed, Evolved, NamesSound, TimesSound, ActorSound;
    forall f | f in t.files && t.files[f].facts.Some?
      ensures ClaimSound(t, f.0, t.files[f].facts.value, sha)
    {
      if f in s.files && t.files[f] == s.files[f] {
        ClaimKept(s, t, f.0, s.files[f].facts.value, sha);
      }
    }
    forall a | a in t.actors
      ensures ActorSound(t, t.actors[a], sha)
    {
      if a != mover && ActorUndisturbed(s, t, s.actors[a]) {
        ActorKept(s, t, s.actors[a], sha);
      }
    }
  }

  /**
   * A file somebody could still corrupt without the store noticing: the temporary file of an
   * unpublished admission, or an object whose admission has renamed it and not yet taken its facts.
   */
  ghost predicate Exposed(s: State, inode: nat) {
    exists a :: a in s.actors && ExposedBy(s, s.actors[a], inode)
  }

  predicate ExposedBy(s: State, actor: Actor, inode: nat) {
    || TmpOf(actor) == Some(inode)
    || (actor.Published? && actor.digest in s.objects && s.objects[actor.digest] == inode)
  }

  ghost predicate Allowed(s: State, step: Step) {
    step.Overwrite? ==> !Exposed(s, step.inode)
  }

  lemma EvolvedSameFiles(s: State, m: State, t: State)
    requires Evolved(s, m) && TimesSound(m) && t.clock == m.clock && t.inodes == m.inodes
    ensures Evolved(s, t) && TimesSound(t)
  {
  }

  lemma EvolvedTrans(s: State, m: State, t: State)
    requires Evolved(s, m) && Evolved(m, t)
    ensures Evolved(s, t)
  {
  }

  /** Begin, write, seal: an actor changes the temporary file that is its own. */
  lemma OwnFileStep(s: State, a: nat, now: Actor, tmp: nat, content: bytes, mtime: int, nlink: nat, sha: bytes -> Digest)
    requires Sound(s, sha)
    requires if a in s.actors then TmpOf(s.actors[a]) == Some(tmp) && tmp in s.inodes else tmp !in s.inodes
    requires TmpOf(now) == Some(tmp)
    requires ActorSound(Becomes(Touch(s, tmp, content, mtime, nlink), a, now), now, sha)
    ensures Sound(Becomes(Touch(s, tmp, content, mtime, nlink), a, now), sha)
  {
    hide ClaimSound, Evolved, ActorSound, NamesSound, TimesSound, ActorUndisturbed, TmpOf;
    var m := Touch(s, tmp, content, mtime, nlink);
    var t := Becomes(m, a, now);
    TouchEvolves(s, tmp, content, mtime, nlink);
    EvolvedSameFiles(s, m, t);
    OwnFileNames(s, t, a, tmp, sha);
    forall b | b in t.actors && b != a
      ensures ActorUndisturbed(s, t, s.actors[b])
    {
      OwnFileUndisturbed(s, t, a, tmp, b, sha);
    }
    KeepsSound(s, t, a, sha);
  }

  predicate TmpIsOwn(s: State, a: nat, tmp: nat) {
    if a in s.actors then TmpOf(s.actors[a]) == Some(tmp) && tmp in s.inodes else tmp !in s.inodes
  }

  lemma OwnFileNames(s: State, t: State, a: nat, tmp: nat, sha: bytes -> Digest)
    requires Sound(s, sha) && TmpIsOwn(s, a, tmp)
    requires t.objects == s.objects && t.inodes.Keys == s.inodes.Keys + {tmp}
    requires a in t.actors && t.actors == s.actors[a := t.actors[a]] && TmpOf(t.actors[a]) == Some(tmp)
    ensures NamesSound(t)
  {
    hide ClaimSound, TimesSound;
    forall b | b in s.actors && b != a
      ensures TmpOf(s.actors[b]) != Some(tmp)
    {
      assert ActorSound(s, s.actors[b], sha);
    }
  }

  lemma OwnFileUndisturbed(s: State, t: State, a: nat, tmp: nat, b: nat, sha: bytes -> Digest)
    requires Sound(s, sha) && TmpIsOwn(s, a, tmp) && b in s.actors && b != a
    requires t.objects == s.objects && t.inodes.Keys == s.inodes.Keys + {tmp}
    requires forall i :: i in s.inodes && i != tmp ==> t.inodes[i] == s.inodes[i]
    ensures ActorUndisturbed(s, t, s.actors[b])
  {
    hide ClaimSound, TimesSound;
    assert ActorSound(s, s.actors[b], sha);
    assert TmpOf(s.actors[b]) != Some(tmp);
    forall d | d in s.objects
      ensures s.objects[d] != tmp
    {
      if a in s.actors {
        assert TmpOf(s.actors[a]) != Some(s.objects[d]);
      }
    }
  }

  lemma WriteAtEnd(content: bytes, block: bytes)
    ensures WriteAt(content, |content|, block) == content + block
  {
  }

  lemma BlockKeeps(s: State, a: nat, block: bytes, sha: bytes -> Digest)
    requires Sound(s, sha) && Next(s, Block(a, block), sha).Some?
    ensures Sound(Next(s, Block(a, block), sha).value, sha)
  {
    hide Sound, WriteAt, ActorSound, Touch;
    var Writing(tmp, hashed) := s.actors[a];
    var node := s.inodes[tmp];
    WritingFile(s, a, sha);
    WriteAtEnd(node.content, block);
    TouchedFile(s, tmp, hashed + block, s.clock, node.nlink);
    var now := Writing(tmp, hashed + block);
    TmpSound(Becomes(Touch(s, tmp, hashed + block, s.clock, node.nlink), a, now), now, sha);
    OwnFileStep(s, a, now, tmp, hashed + block, s.clock, node.nlink, sha);
  }

  lemma WritingFile(s: State, a: nat, sha: bytes -> Digest)
    requires Sound(s, sha) && a in s.actors
    ensures ActorSound(s, s.actors[a], sha)
    ensures s.actors[a].Writing? ==> s.actors[a].tmp in s.inodes && s.inodes[s.actors[a].tmp].content == s.actors[a].hashed
    ensures s.actors[a].Sealed? ==> s.actors[a].tmp in s.inodes && sha(s.inodes[s.actors[a].tmp].content) == s.actors[a].digest
  {
    assert ActorSound(s, s.actors[a], sha);
  }

  lemma TouchedFile(s: State, inode: nat, content: bytes, mtime: int, nlink: nat)
    ensures var t := Touch(s, inode, content, mtime, nlink);
      t.inodes == s.inodes[inode := Inode(content, mtime, s.clock, nlink)] && t.clock == s.clock + 1
      && t.objects == s.objects && t.manifests == s.manifests && t.pending == s.pending && t.files == s.files
      && t.actors == s.actors && t.resolved == s.resolved
  {
  }

  lemma TmpSound(t: State, now: Actor, sha: bytes -> Digest)
    requires TmpOf(now).Some? && now.tmp in t.inodes
    requires now.Writing? ==> t.inodes[now.tmp].content == now.hashed
    requires now.Sealed? ==> sha(t.inodes[now.tmp].content) == now.digest
    ensures ActorSound(t, now, sha)
  {
  }

  lemma BeginKeeps(s: State, a: nat, inode: nat, sha: bytes -> Digest)
    requires Sound(s, sha) && Next(s, Begin(a, inode), sha).Some?
    ensures Sound(Next(s, Begin(a, inode), sha).value, sha)
  {
    hide Sound, ActorSound;
    TmpSound(Becomes(Touch(s, inode, [], s.clock, 1), a, Writing(inode, [])), Writing(inode, []), sha);
    OwnFileStep(s, a, Writing(inode, []), inode, [], s.clock, 1, sha);
  }

  lemma SealKeeps(s: State, a: nat, dd: Option<Digest>, ds: Option<int>, sha: bytes -> Digest)
    requires Sound(s, sha) && Next(s, Seal(a, dd, ds), sha).Some?
    ensures Sound(Next(s, Seal(a, dd, ds), sha).value, sha)
  {
    hide Sound, ActorSound;
    var Writing(tmp, hashed) := s.actors[a];
    WritingFile(s, a, sha);
    var node := s.inodes[tmp];
    var now := Sealed(tmp, sha(hashed));
    TmpSound(Becomes(Touch(s, tmp, node.content, node.mtime, node.nlink), a, now), now, sha);
    OwnFileStep(s, a, now, tmp, node.content, node.mtime, node.nlink, sha);
  }

  lemma PublishNames(s: State, t: State, a: nat, tmp: nat, digest: Digest, sha: bytes -> Digest)
    requires Sound(s, sha) && a in s.actors && TmpOf(s.actors[a]) == Some(tmp) && tmp in t.inodes
    requires t.objects == s.objects[digest := tmp] && t.actors == s.actors[a := Published(digest)]
    requires forall i :: i in s.inodes && (digest in s.objects ==> i != s.objects[digest]) ==> i in t.inodes
    ensures NamesSound(t)
  {
    hide ClaimSound, TimesSound, ActorSound;
  }

  lemma PublishOthers(s: State, t: State, a: nat, tmp: nat, digest: Digest, b: nat, sha: bytes -> Digest)
    requires Sound(s, sha) && a in s.actors && TmpOf(s.actors[a]) == Some(tmp) && tmp in t.inodes
    requires t.objects == s.objects[digest := tmp] && sha(t.inodes[tmp].content) == digest
    requires ContentsKept(s, t) && t.inodes.Keys <= s.inodes.Keys
    requires forall i :: i in s.inodes && (digest in s.objects ==> i != s.objects[digest]) ==> i in t.inodes
    requires b in s.actors && b != a
    ensures ActorUndisturbed(s, t, s.actors[b]) || ActorSound(t, s.actors[b], sha)
  {
    hide ClaimSound, TimesSound;
    if s.actors[b] == Published(digest) {
      assert ActorSound(t, s.actors[b], sha);
    } else {
      assert TmpOf(s.actors[b]) != Some(tmp);
      assert ActorUndisturbed(s, t, s.actors[b]);
    }
  }

  lemma PublishKeeps(s: State, a: nat, sha: bytes -> Digest)
    requires Sound(s, sha) && Next(s, Publish(a), sha).Some?
    ensures Sound(Next(s, Publish(a), sha).value, sha)
  {
    hide ClaimSound, Evolved, ActorSound, NamesSound, TimesSound, ActorUndisturbed, Unlink, Touch;
    var t := Next(s, Publish(a), sha).value;
    var Sealed(tmp, digest) := s.actors[a];
    WritingFile(s, a, sha);
    var freed := FreedByRename(s, a, tmp, digest, sha);
    var node := s.inodes[tmp];
    var moved := Touch(freed, tmp, node.content, node.mtime, node.nlink);
    TouchEvolves(freed, tmp, node.content, node.mtime, node.nlink);
    TouchedFile(freed, tmp, node.content, node.mtime, node.nlink);
    EvolvedTrans(s, freed, moved);
    EvolvedSameFiles(s, moved, t);
    PublishNames(s, t, a, tmp, digest, sha);
    PublishedSound(t, digest, tmp, sha);
    forall b | b in t.actors && b != a
      ensures ActorUndisturbed(s, t, s.actors[b]) || ActorSound(t, s.actors[b], sha)
    {
      PublishOthers(s, t, a, tmp, digest, b, sha);
    }
    KeepsSound(s, t, a, sha);
  }

  lemma PublishedSound(t: State, digest: Digest, tmp: nat, sha: bytes -> Digest)
    requires digest in t.objects && t.objects[digest] == tmp && tmp in t.inodes && sha(t.inodes[tmp].content) == digest
    ensures ActorSound(t, Published(digest), sha)
  {
  }

  /** The directory after `rename` has dropped whatever had the name before. */
  lemma FreedByRename(s: State, a: nat, tmp: nat, digest: Digest, sha: bytes -> Digest) returns (freed: State)
    requires Sound(s, sha) && a in s.actors && TmpOf(s.actors[a]) == Some(tmp) && tmp in s.inodes
    ensures freed == if digest in s.objects then Unlink(s, s.objects[digest]) else s
    ensures Evolved(s, freed) && TimesSound(freed) && ContentsKept(s, freed)
    ensures freed == s.(inodes := freed.inodes, clock := freed.clock)
    ensures tmp in freed.inodes && freed.inodes[tmp] == s.inodes[tmp] && freed.inodes.Keys <= s.inodes.Keys
    ensures forall i :: i in s.inodes && (digest in s.objects ==> i != s.objects[digest]) ==> i in freed.inodes
  {
    hide ClaimSound, ActorSound;
    if digest in s.objects {
      freed := Unlink(s, s.objects[digest]);
      UnlinkEvolves(s, s.objects[digest]);
      assert TmpOf(s.actors[a]) != Some(s.objects[digest]);
    } else {
      freed := s;
    }
  }

  /** Steps that leave every file and name alone: facts are taken, recorded or compared. */
  lemma RecordStep(s: State, t: State, a: nat, sha: bytes -> Digest)
    requires Sound(s, sha)
    requires t.clock == s.clock && t.inodes == s.inodes && t.objects == s.objects
    requires t.actors == s.actors - {a} || (a in t.actors && t.actors == s.actors[a := t.actors[a]] && TmpOf(t.actors[a]).None?)
    requires a in t.actors ==> ActorSound(t, t.actors[a], sha)
    requires FilesKept(s, t, sha)
    requires forall k :: 0 <= k < |t.resolved| ==> sha(t.resolved[k].1) == t.resolved[k].0
    ensures Sound(t, sha)
  {
    hide ClaimSound;
    forall b | b in t.actors && b != a
      ensures ActorUndisturbed(s, t, s.actors[b]) || ActorSound(t, s.actors[b], sha)
    {
      assert ActorSound(s, s.actors[b], sha);
      SameFilesUndisturbed(s, t, s.actors[b]);
    }
    KeepsSound(s, t, a, sha);
  }

  lemma SameFilesUndisturbed(s: State, t: State, actor: Actor)
    requires t.inodes == s.inodes && t.objects == s.objects
    ensures ActorUndisturbed(s, t, actor)
  {
  }

  /** Facts taken inside the window after a rename describe the bytes that were renamed. */
  lemma PinKeeps(s: State, a: nat, sha: bytes -> Digest)
    requires Sound(s, sha) && Next(s, Pin(a), sha).Some?
    ensures Sound(Next(s, Pin(a), sha).value, sha)
  {
    hide NamesSound, ActorUndisturbed;
    var t := Next(s, Pin(a), sha).value;
    assert ActorSound(s, s.actors[a], sha);
    assert s.inodes[s.objects[s.actors[a].digest]].ctime < s.clock;
    assert ClaimSound(t, t.actors[a].digest, t.actors[a].facts, sha);
    RecordStep(s, t, a, sha);
  }

  lemma OpenKeeps(s: State, a: nat, sha: bytes -> Digest)
    requires Sound(s, sha) && Next(s, OpenObject(a), sha).Some?
    ensures Sound(Next(s, OpenObject(a), sha).value, sha)
  {
    hide NamesSound, ActorUndisturbed, TimesSound;
    var t := Next(s, OpenObject(a), sha).value;
    assert ActorSound(s, s.actors[a], sha);
    RecordStep(s, t, a, sha);
  }

  lemma ClaimSame(s: State, t: State, digest: Digest, facts: Facts, sha: bytes -> Digest)
    requires t.inodes == s.inodes && t.clock == s.clock
    ensures ClaimSound(t, digest, facts, sha) == ClaimSound(s, digest, facts, sha)
  {
  }

  lemma RecordsKeep(s: State, step: Step, sha: bytes -> Digest)
    requires Sound(s, sha) && Next(s, step, sha).Some?
    requires step.OpenManifest? || step.WriteBody? || step.RenameManifest? || step.Crash? || step.EvictManifest?
    ensures Sound(Next(s, step, sha).value, sha)
  {
    hide NamesSound, ActorUndisturbed, TimesSound, ClaimSound;
    var t := Next(s, step, sha).value;
    if step.OpenManifest? || step.WriteBody? {
      assert ActorSound(s, s.actors[step.actor], sha);
      ClaimSame(s, t, s.actors[step.actor].digest, s.actors[step.actor].facts, sha);
    }
    RecordStep(s, t, step.actor, sha);
  }

  lemma ReadKeeps(s: State, a: nat, digest: Digest, sha: bytes -> Digest)
    requires Sound(s, sha) && Next(s, ReadManifest(a, digest), sha).Some?
    ensures Sound(Next(s, ReadManifest(a, digest), sha).value, sha)
  {
    hide NamesSound, ActorUndisturbed, TimesSound, ClaimSound;
    var t := Next(s, ReadManifest(a, digest), sha).value;
    var f := (digest, s.manifests[digest]);
    assert f in s.files && s.files[f].facts.Some?;
    ClaimSame(s, t, digest, s.files[f].facts.value, sha);
    RecordStep(s, t, a, sha);
  }

  /** A file loses a name: a temporary one in a failed admission, or an object's in an eviction. */
  lemma RemovalStep(s: State, t: State, a: nat, inode: nat, sha: bytes -> Digest)
    requires Sound(s, sha)
    requires t.inodes == Unlink(s, inode).inodes && t.clock == Unlink(s, inode).clock
    requires t.files == s.files && t.resolved == s.resolved
    requires forall d :: d in t.objects <==> d in s.objects && s.objects[d] != inode
    requires forall d :: d in t.objects ==> t.objects[d] == s.objects[d]
    requires t.actors == s.actors - {a} || (a in t.actors && t.actors == s.actors[a := t.actors[a]] && t.actors[a].Evicting?)
    requires forall b :: b in s.actors && b != a ==> TmpOf(s.actors[b]) != Some(inode)
    ensures Sound(t, sha)
  {
    hide ClaimSound, ActorSound, Evolved, NamesSound, TimesSound, Unlink, TmpOf;
    UnlinkEvolves(s, inode);
    EvolvedSameFiles(s, Unlink(s, inode), t);
    RemovalNames(s, t, a, inode, sha);
    forall b | b in t.actors && b != a
      ensures ActorUndisturbed(s, t, s.actors[b])
    {
    }
    if a in t.actors {
      EvictingSound(t, t.actors[a], sha);
    }
    KeepsSound(s, t, a, sha);
  }

  lemma EvictingSound(t: State, actor: Actor, sha: bytes -> Digest)
    requires actor.Evicting?
    ensures ActorSound(t, actor, sha)
  {
  }

  lemma RemovalNames(s: State, t: State, a: nat, inode: nat, sha: bytes -> Digest)
    requires Sound(s, sha)
    requires forall i :: i in s.inodes && i != inode ==> i in t.inodes
    requires forall d :: d in t.objects <==> d in s.objects && s.objects[d] != inode
    requires forall d :: d in t.objects ==> t.objects[d] == s.objects[d]
    requires t.actors == s.actors - {a} || (a in t.actors && t.actors == s.actors[a := t.actors[a]] && t.actors[a].Evicting?)
    ensures NamesSound(t)
  {
    hide ClaimSound, ActorSound, TimesSound;
  }

  lemma EvictObjectKeeps(s: State, a: nat, digest: Digest, sha: bytes -> Digest)
    requires Sound(s, sha) && Next(s, EvictObject(a, digest), sha).Some?
    ensures Sound(Next(s, EvictObject(a, digest), sha).value, sha)
  {
    hide ClaimSound, ActorSound, TimesSound;
    var t := Next(s, EvictObject(a, digest), sha).value;
    UnlinkFrame(s, s.objects[digest]);
    RemovalStep(s, t, a, s.objects[digest], sha);
  }

  lemma UnlinkFrame(s: State, inode: nat)
    ensures Unlink(s, inode) == s.(inodes := Unlink(s, inode).inodes, clock := Unlink(s, inode).clock)
  {
  }

  lemma AbandonKeeps(s: State, a: nat, sha: bytes -> Digest)
    requires Sound(s, sha) && Next(s, Abandon(a), sha).Some?
    ensures Sound(Next(s, Abandon(a), sha).value, sha)
  {
    hide ClaimSound, ActorSound, TimesSound, Unlink;
    var t := Next(s, Abandon(a), sha).value;
    if TmpOf(s.actors[a]).Some? {
      UnlinkFrame(s, s.actors[a].tmp);
      RemovalStep(s, t, a, s.actors[a].tmp, sha);
    } else {
      RecordStep(s, t, a, sha);
    }
  }

  lemma FreshId(ids: set<nat>) returns (id: nat)
    ensures forall i :: i in ids ==> i < id
    decreases |ids|
  {
    id := 0;
    if ids != {} {
      var i :| i in ids;
      var rest := FreshId(ids - {i});
      id := if rest <= i then i + 1 else rest;
      assert forall j :: j in ids ==> j == i || j in ids - {i};
    }
  }

  /** Somebody else changes a file: harmless when its content stays, or when nothing exposes it. */
  lemma OutsideStep(s: State, inode: nat, content: bytes, mtime: int, nlink: nat, sha: bytes -> Digest)
    requires Sound(s, sha) && inode in s.inodes
    requires content == s.inodes[inode].content || !Exposed(s, inode)
    ensures Sound(Touch(s, inode, content, mtime, nlink), sha)
  {
    hide ClaimSound, ActorSound, Evolved, TimesSound;
    var t := Touch(s, inode, content, mtime, nlink);
    TouchEvolves(s, inode, content, mtime, nlink);
    var nobody := FreshId(t.actors.Keys);
    forall b | b in t.actors && b != nobody
      ensures ActorUndisturbed(s, t, s.actors[b])
    {
      assert ExposedBy(s, s.actors[b], inode) ==> Exposed(s, inode);
    }
    KeepsSound(s, t, nobody, sha);
  }

  lemma StepKeeps(s: State, step: Step, sha: bytes -> Digest)
    requires Sound(s, sha) && Allowed(s, step) && Next(s, step, sha).Some?
    ensures Sound(Next(s, step, sha).value, sha)
  {
    hide Sound, Next, Exposed;
    match step
    case Begin(a, inode) => BeginKeeps(s, a, inode, sha);
    case Block(a, block) => BlockKeeps(s, a, block, sha);
    case Seal(a, dd, ds) => SealKeeps(s, a, dd, ds, sha);
    case Publish(a) => PublishKeeps(s, a, sha);
    case Pin(a) => PinKeeps(s, a, sha);
    case OpenManifest(_, _) => RecordsKeep(s, step, sha);
    case WriteBody(_, _) => RecordsKeep(s, step, sha);
    case RenameManifest(_) => RecordsKeep(s, step, sha);
    case Abandon(a) => AbandonKeeps(s, a, sha);
    case Crash(_) => RecordsKeep(s, step, sha);
    case EvictObject(a, digest) => EvictObjectKeeps(s, a, digest, sha);
    case EvictManifest(_) => RecordsKeep(s, step, sha);
    case ReadManifest(a, digest) => ReadKeeps(s, a, digest, sha);
    case OpenObject(a) => OpenKeeps(s, a, sha);
    case Overwrite(inode, _, _) => OutsideKeeps(s, step, inode, sha);
    case HardLink(inode) => OutsideKeeps(s, step, inode, sha);
  }

  lemma OutsideKeeps(s: State, step: Step, inode: nat, sha: bytes -> Digest)
    requires Sound(s, sha) && Allowed(s, step) && Next(s, step, sha).Some?
    requires step == HardLink(inode) || (step.Overwrite? && step.inode == inode)
    ensures Sound(Next(s, step, sha).value, sha)
  {
    hide Sound, Exposed;
    if step.Overwrite? {
      OutsideStep(s, inode, step.content, step.mtime, s.inodes[inode].nlink, sha);
    } else {
      OutsideStep(s, inode, s.inodes[inode].content, s.inodes[inode].mtime, s.inodes[inode].nlink + 1, sha);
    }
  }
}
