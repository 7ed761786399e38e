/** What runs of the admitted store cannot do, and the one thing they can. */
module AdmittedStoreRuns {
  import opened Wrappers
  import opened Bytes
  import opened AdmittedStore

  // Runs

  function Run(s: State, steps: seq<Step>, sha: bytes -> Digest): Option<State>
    decreases |steps|
  {
    if steps == [] then Some(s) else
    match Next(s, steps[0], sha)
    case None => None
    case Some(t) => Run(t, steps[1..], sha)
  }

  /** Every step can be taken, and nobody rewrites a file while it is exposed. */
  ghost predicate AllowedRun(s: State, steps: seq<Step>, sha: bytes -> Digest)
    decreases |steps|
  {
    steps == [] ||
    (Allowed(s, steps[0]) && Next(s, steps[0], sha).Some? && AllowedRun(Next(s, steps[0], sha).value, steps[1..], sha))
  }

  lemma {:induction false} RunKeeps(s: State, steps: seq<Step>, sha: bytes -> Digest)
    requires Sound(s, sha) && AllowedRun(s, steps, sha)
    ensures Run(s, steps, sha).Some? && Sound(Run(s, steps, sha).value, sha)
    decreases |steps|
  {
    hide Sound, Next, Allowed;
    if steps != [] {
      StepKeeps(s, steps[0], sha);
      RunKeeps(Next(s, steps[0], sha).value, steps[1..], sha);
    }
  }

  /** A directory nobody has admitted anything to; it may hold files under other names. */
  predicate Fresh(s: State) {
    s.objects == map[] && s.files == map[] && s.actors == map[] && s.resolved == []
    && TimesSound(s)
  }

  /**
   * However many admissions, resolutions and evictions interleave and crash, and whatever
   * unexposed files are rewritten meanwhile: a resolution succeeds only on bytes that hash to
   * the digest it was asked for.
   */
  lemma {:induction false} ResolvedBytesHashToDigest(s: State, steps: seq<Step>, sha: bytes -> Digest)
    requires Fresh(s) && AllowedRun(s, steps, sha)
    ensures Run(s, steps, sha).Some?
    ensures forall k :: 0 <= k < |Run(s, steps, sha).value.resolved| ==>
      var (digest, content) := Run(s, steps, sha).value.resolved[k]; sha(content) == digest
  {
    RunKeeps(s, steps, sha);
  }

  // Facts once outdated stay outdated

  predicate Outdated(s: State, facts: Facts) {
    && facts.ctime < s.clock
    && (facts.inode in s.inodes ==> s.inodes[facts.inode].ctime > facts.ctime)
  }

  lemma StepEvolves(s: State, step: Step, sha: bytes -> Digest)
    requires TimesSound(s) && Next(s, step, sha).Some?
    ensures Evolved(s, Next(s, step, sha).value) && TimesSound(Next(s, step, sha).value)
  {
    if step.Publish? || step.Abandon? || step.EvictObject? {
      UnlinkingEvolves(s, step, sha);
    } else {
      hide WriteAt, Matches, Unlink, ManifestFacts, WrittenOver;
    }
  }

  lemma UnlinkingEvolves(s: State, step: Step, sha: bytes -> Digest)
    requires TimesSound(s) && Next(s, step, sha).Some? && (step.Publish? || step.Abandon? || step.EvictObject?)
    ensures Evolved(s, Next(s, step, sha).value) && TimesSound(Next(s, step, sha).value)
  {
    hide Unlink, Touch, Evolved, TimesSound;
    var t := Next(s, step, sha).value;
    if step.Publish? {
      var Sealed(tmp, digest) := s.actors[step.actor];
      var freed := if digest in s.objects then Unlink(s, s.objects[digest]) else s;
      if digest in s.objects {
        UnlinkEvolves(s, s.objects[digest]);
      } else {
        EvolvesToItself(s);
      }
      var node := s.inodes[tmp];
      var moved := Touch(freed, tmp, node.content, node.mtime, node.nlink);
      TouchEvolves(freed, tmp, node.content, node.mtime, node.nlink);
      EvolvedTrans(s, freed, moved);
      EvolvedSameFiles(s, moved, t);
    } else if step.EvictObject? {
      UnlinkEvolves(s, s.objects[step.digest]);
      EvolvedSameFiles(s, Unlink(s, s.objects[step.digest]), t);
    } else if TmpOf(s.actors[step.actor]).Some? {
      UnlinkEvolves(s, s.actors[step.actor].tmp);
      EvolvedSameFiles(s, Unlink(s, s.actors[step.actor].tmp), t);
    } else {
      EvolvesToItself(s);
      EvolvedSameFiles(s, s, t);
    }
  }

  lemma EvolvesToItself(s: State)
    ensures Evolved(s, s)
  {
  }

  lemma {:induction false} OutdatedForever(s: State, steps: seq<Step>, facts: Facts, sha: bytes -> Digest)
    requires TimesSound(s) && Outdated(s, facts)
    ensures Run(s, steps, sha).Some? ==> Outdated(Run(s, steps, sha).value, facts)
    decreases |steps|
  {
    hide Next, TimesSound;
    if steps != [] && Next(s, steps[0], sha).Some? {
      StepEvolves(s, steps[0], sha);
      OutdatedForever(Next(s, steps[0], sha).value, steps[1..], facts, sha);
    }
  }

  /**
   * A file changed after its facts were taken, by a write, a link or anything else that is a
   * change, never has those facts again: not in any run, allowed or not, and not under any name.
   */
  lemma {:induction false} ChangedFileNeverMatches(s: State, change: Step, steps: seq<Step>, facts: Facts, digest: Digest, sha: bytes -> Digest)
    requires TimesSound(s) && facts.ctime < s.clock
    requires change.Overwrite? || change.HardLink?
    requires change.inode == facts.inode && change.inode in s.inodes
    ensures Run(s, [change] + steps, sha).Some? ==> !Matches(Run(s, [change] + steps, sha).value, digest, facts)
  {
    var t := Next(s, change, sha).value;
    StepEvolves(s, change, sha);
    assert ([change] + steps)[1..] == steps;
    OutdatedForever(t, steps, facts, sha);
  }

  // When a rewritten file can deceive the store

  /** The digest the store will take the file for, once this admission goes on. */
  function Expected(actor: Actor, sha: bytes -> Digest): Digest
    requires TmpOf(actor).Some? || actor.Published?
  {
    if actor.Writing? then sha(actor.hashed) else actor.digest
  }

  predicate InWindow(s: State, a: nat, digest: Digest, content: bytes) {
    && a in s.actors && s.actors[a] == Published(digest)
    && digest in s.objects && s.objects[digest] in s.inodes && s.inodes[s.objects[digest]].content == content
  }

  /** The temporary manifest an admission of this digest would open. */
  ghost predicate MayOpen(s: State, digest: Digest, file: nat) {
    if digest in s.pending then file == s.pending[digest] else (digest, file) !in s.files
  }

  lemma FileToOpen(s: State, digest: Digest) returns (file: nat)
    ensures MayOpen(s, digest, file)
  {
    if digest in s.pending {
      file := s.pending[digest];
    } else {
      var taken := set f | f in s.files :: f.1;
      file := FreshId(taken);
      forall f | f in s.files
        ensures f != (digest, file)
      {
        assert f.1 in taken;
      }
    }
  }

  /** The allowed run of these steps ends in this state. */
  ghost predicate Leads(s: State, steps: seq<Step>, t: State, sha: bytes -> Digest) {
    AllowedRun(s, steps, sha) && Run(s, steps, sha) == Some(t)
  }

  lemma LeadsBy(s: State, step: Step, t: State, rest: seq<Step>, end: State, sha: bytes -> Digest)
    requires Next(s, step, sha) == Some(t) && !step.Overwrite? && Leads(t, rest, end, sha)
    ensures Leads(s, [step] + rest, end, sha)
  {
    hide Next;
    RunCons(s, step, t, rest, sha);
  }

  lemma Opens(s: State, a: nat, digest: Digest, facts: Facts, file: nat, sha: bytes -> Digest) returns (t: State)
    requires a in s.actors && s.actors[a] == Pinned(digest, facts) && MayOpen(s, digest, file)
    ensures Next(s, OpenManifest(a, file), sha) == Some(t)
    ensures t == s.(pending := s.pending[digest := file], files := s.files[(digest, file) := Body(None, 0)],
                    actors := s.actors[a := Recording(digest, facts, file)])
  {
    t := Next(s, OpenManifest(a, file), sha).value;
  }

  lemma Writes(s: State, a: nat, digest: Digest, facts: Facts, file: nat, size: nat, sha: bytes -> Digest) returns (t: State)
    requires a in s.actors && s.actors[a] == Recording(digest, facts, file)
    ensures Next(s, WriteBody(a, size), sha) == Some(t)
    ensures t == s.(files := s.files[(digest, file) := WrittenOver(s, digest, file, facts, size)],
                    actors := s.actors[a := Recorded(digest, facts, file)])
  {
    t := Next(s, WriteBody(a, size), sha).value;
  }

  lemma Renames(s: State, a: nat, digest: Digest, sha: bytes -> Digest) returns (t: State)
    requires a in s.actors && s.actors[a].Recorded? && s.actors[a].digest == digest && digest in s.pending
    ensures Next(s, RenameManifest(a), sha) == Some(t)
    ensures t == s.(manifests := s.manifests[digest := s.pending[digest]], pending := s.pending - {digest}, actors := s.actors - {a})
  {
    t := Next(s, RenameManifest(a), sha).value;
  }

  /** Opening, writing and renaming the manifest leads from the one state to the other. */
  predicate Records(t: State, u: State, actor: nat, file: nat, size: nat, sha: bytes -> Digest) {
    var t1 := Next(t, OpenManifest(actor, file), sha);
    if t1.None? then false else
    var t2 := Next(t1.value, WriteBody(actor, size), sha);
    t2.Some? && Next(t2.value, RenameManifest(actor), sha) == Some(u)
  }

  lemma RecordsInto(s: State, a: nat, digest: Digest, facts: Facts, file: nat, size: nat, sha: bytes -> Digest) returns (t: State)
    requires a in s.actors && s.actors[a] == Pinned(digest, facts) && MayOpen(s, digest, file)
    ensures t == OnceRecorded(s, a, digest, facts, file, size) && Records(s, t, a, file, size, sha)
  {
    hide Next;
    var s1 := Opens(s, a, digest, facts, file, sha);
    var s2 := Writes(s1, a, digest, facts, file, size, sha);
    t := Renames(s2, a, digest, sha);
    assert t.pending == s.pending - {digest} && t.actors == s.actors - {a};
  }

  /** From facts taken to the manifest in place, with nobody in between. */
  lemma RecordsFacts(s: State, a: nat, digest: Digest, facts: Facts, file: nat, size: nat, rest: seq<Step>, end: State, sha: bytes -> Digest)
    returns (t: State)
    requires a in s.actors && s.actors[a] == Pinned(digest, facts) && MayOpen(s, digest, file)
    ensures t == OnceRecorded(s, a, digest, facts, file, size)
    ensures Leads(t, rest, end, sha) ==>
      Leads(s, [OpenManifest(a, file), WriteBody(a, size), RenameManifest(a)] + rest, end, sha)
  {
    hide Leads, Run, AllowedRun, Next, OnceRecorded;
    t := RecordsInto(s, a, digest, facts, file, size, sha);
    var s1 := Next(s, OpenManifest(a, file), sha).value;
    var s2 := Next(s1, WriteBody(a, size), sha).value;
    if Leads(t, rest, end, sha) {
      LeadsBy(s2, RenameManifest(a), t, rest, end, sha);
      LeadsBy(s1, WriteBody(a, size), s2, [RenameManifest(a)] + rest, end, sha);
      LeadsBy(s, OpenManifest(a, file), s1, [WriteBody(a, size)] + ([RenameManifest(a)] + rest), end, sha);
      assert [OpenManifest(a, file), WriteBody(a, size), RenameManifest(a)] + rest
          == [OpenManifest(a, file)] + ([WriteBody(a, size)] + ([RenameManifest(a)] + rest));
    }
  }

  function OnceRecorded(s: State, a: nat, digest: Digest, facts: Facts, file: nat, size: nat): State {
    s.(manifests := s.manifests[digest := file], pending := s.pending - {digest},
       files := s.files[(digest, file) := Body(Some(facts), size)], actors := s.actors - {a})
  }

  lemma {:induction false} WindowResolves(s: State, a: nat, digest: Digest, content: bytes, sha: bytes -> Digest)
    returns (steps: seq<Step>)
    requires InWindow(s, a, digest, content)
    ensures AllowedRun(s, steps, sha) && Run(s, steps, sha).Some?
    ensures Run(s, steps, sha).value.resolved == s.resolved + [(digest, content)]
  {
    hide Touch, Unlink, Exposed, AllowedRun, Run;
    var facts := FactsOf(s.objects[digest], s.inodes[s.objects[digest]]);
    var s1 := Becomes(s, a, Pinned(digest, facts));
    assert Next(s, Pin(a), sha) == Some(s1);
    var file := FileToOpen(s1, digest);
    var s2 := OnceRecorded(s1, a, digest, facts, file, 1);
    var s3, s4 := ReadsBack(s2, a, digest, facts, content, sha);
    RunNothing(s4, sha);
    LeadsBy(s3, OpenObject(a), s4, [], s4, sha);
    LeadsBy(s2, ReadManifest(a, digest), s3, [OpenObject(a)] + [], s4, sha);
    var rest := [ReadManifest(a, digest)] + ([OpenObject(a)] + []);
    s2 := RecordsFacts(s1, a, digest, facts, file, 1, rest, s4, sha);
    var recording := [OpenManifest(a, file), WriteBody(a, 1), RenameManifest(a)] + rest;
    LeadsBy(s, Pin(a), s1, recording, s4, sha);
    steps := [Pin(a)] + recording;
  }

  lemma ReadsBack(s: State, a: nat, digest: Digest, facts: Facts, content: bytes, sha: bytes -> Digest) returns (t: State, u: State)
    requires a !in s.actors && ManifestFacts(s, digest) == Some(facts) && Matches(s, digest, facts)
    requires s.inodes[s.objects[digest]].content == content
    ensures Next(s, ReadManifest(a, digest), sha) == Some(t) && Next(t, OpenObject(a), sha) == Some(u)
    ensures u.resolved == s.resolved + [(digest, content)]
  {
    t := Becomes(s, a, Resolving(digest, facts));
    u := Done(t.(resolved := s.resolved + [(digest, content)]), a);
  }

  lemma {:induction false} RunNothing(s: State, sha: bytes -> Digest)
    ensures Run(s, [], sha) == Some(s) && AllowedRun(s, [], sha)
  {
  }

  lemma {:induction false} RunCons(s: State, step: Step, t: State, rest: seq<Step>, sha: bytes -> Digest)
    requires Next(s, step, sha) == Some(t)
    ensures Run(s, [step] + rest, sha) == Run(t, rest, sha)
    ensures !step.Overwrite? && AllowedRun(t, rest, sha) ==> AllowedRun(s, [step] + rest, sha)
  {
    assert ([step] + rest)[1..] == rest;
  }

  lemma SealedReachesWindow(s: State, a: nat, tmp: nat, digest: Digest, sha: bytes -> Digest)
    requires NamesSound(s) && a in s.actors && s.actors[a] == Sealed(tmp, digest) && tmp in s.inodes
    ensures Next(s, Publish(a), sha).Some?
    ensures InWindow(Next(s, Publish(a), sha).value, a, digest, s.inodes[tmp].content)
    ensures Next(s, Publish(a), sha).value.resolved == s.resolved
  {
    assert TmpOf(s.actors[a]) == Some(tmp);
  }

  lemma WritingReachesSealed(s: State, a: nat, tmp: nat, hashed: bytes, sha: bytes -> Digest)
    requires NamesSound(s) && a in s.actors && s.actors[a] == Writing(tmp, hashed) && tmp in s.inodes
    ensures var t := Next(s, Seal(a, None, None), sha);
      && t.Some? && NamesSound(t.value) && t.value.resolved == s.resolved
      && a in t.value.actors && t.value.actors[a] == Sealed(tmp, sha(hashed))
      && tmp in t.value.inodes && t.value.inodes[tmp].content == s.inodes[tmp].content
  {
    assert TmpOf(s.actors[a]) == Some(tmp);
  }

  /** A file exposed by an admission and rewritten is published, pinned and resolved like any other. */
  lemma ExposureDeceives(s: State, a: nat, inode: nat, content: bytes, sha: bytes -> Digest) returns (steps: seq<Step>)
    requires NamesSound(s) && a in s.actors && ExposedBy(s, s.actors[a], inode) && inode in s.inodes
    requires s.inodes[inode].content == content
    ensures AllowedRun(s, steps, sha) && Run(s, steps, sha).Some?
    ensures Run(s, steps, sha).value.resolved == s.resolved + [(Expected(s.actors[a], sha), content)]
    decreases if a in s.actors && s.actors[a].Writing? then 1 else 0
  {
    hide Next, NamesSound, AllowedRun, Run;
    match s.actors[a]
    case Published(digest) =>
      steps := WindowResolves(s, a, digest, content, sha);
    case Sealed(tmp, digest) =>
      SealedReachesWindow(s, a, tmp, digest, sha);
      var t := Next(s, Publish(a), sha).value;
      var rest := WindowResolves(t, a, digest, content, sha);
      steps := [Publish(a)] + rest;
      RunCons(s, Publish(a), t, rest, sha);
    case Writing(tmp, hashed) =>
      WritingReachesSealed(s, a, tmp, hashed, sha);
      var t := Next(s, Seal(a, None, None), sha).value;
      var rest := ExposureDeceives(t, a, tmp, content, sha);
      steps := [Seal(a, None, None)] + rest;
      RunCons(s, Seal(a, None, None), t, rest, sha);
  }

  ghost predicate NeverDeceived(s: State, sha: bytes -> Digest) {
    forall steps :: AllowedRun(s, steps, sha) && Run(s, steps, sha).Some? ==> LogSound(Run(s, steps, sha).value, sha)
  }

  predicate LogSound(s: State, sha: bytes -> Digest) {
    forall k :: 0 <= k < |s.resolved| ==> sha(s.resolved[k].1) == s.resolved[k].0
  }

  /**
   * Exactly which rewrites the pinned facts catch. Bytes that are not those an admission will
   * vouch for deceive some later resolution if and only if the file is the temporary file of an
   * unpublished admission, or the object some admission of the same digest has renamed into place
   * and not yet pinned. A second admission of a digest already in the store reopens that window.
   */
  lemma RewriteHarmlessIffNotExposed(s: State, inode: nat, content: bytes, mtime: int, sha: bytes -> Digest)
    requires Sound(s, sha) && inode in s.inodes
    requires forall a :: a in s.actors && ExposedBy(s, s.actors[a], inode) ==> sha(content) != Expected(s.actors[a], sha)
    ensures NeverDeceived(Next(s, Overwrite(inode, content, mtime), sha).value, sha) <==> !Exposed(s, inode)
  {
    hide AllowedRun, Run, LogSound;
    var t := Next(s, Overwrite(inode, content, mtime), sha).value;
    if Exposed(s, inode) {
      var a :| a in s.actors && ExposedBy(s, s.actors[a], inode);
      assert NamesSound(t);
      var steps := ExposureDeceives(t, a, inode, content, sha);
      LastEntry(Run(t, steps, sha).value, s.resolved, Expected(s.actors[a], sha), content, sha);
    } else {
      StepKeeps(s, Overwrite(inode, content, mtime), sha);
      forall steps | AllowedRun(t, steps, sha) && Run(t, steps, sha).Some?
        ensures LogSound(Run(t, steps, sha).value, sha)
      {
        RunKeeps(t, steps, sha);
        SoundLog(Run(t, steps, sha).value, sha);
      }
    }
  }

  lemma LastEntry(s: State, before: seq<(Digest, bytes)>, digest: Digest, content: bytes, sha: bytes -> Digest)
    requires s.resolved == before + [(digest, content)] && sha(content) != digest
    ensures !LogSound(s, sha)
  {
    assert s.resolved[|before|] == (digest, content);
  }

  lemma SoundLog(s: State, sha: bytes -> Digest)
    requires Sound(s, sha)
    ensures LogSound(s, sha)
  {
  }

  // An admission nobody interferes with

  predicate Resolvable(s: State, digest: Digest) {
    var facts := ManifestFacts(s, digest);
    facts.Some? && Matches(s, digest, facts.value)
  }

  /** An admission of this digest that has renamed its object. */
  predicate Handles(actor: Actor, digest: Digest) {
    (actor.Published? || actor.Pinned? || actor.Recording? || actor.Recorded?) && actor.digest == digest
  }

  /** How far the admission has come in recording the facts; once it has gone, the manifest has them. */
  predicate OnRecord(s: State, a: nat, digest: Digest, facts: Facts) {
    if a !in s.actors || !Handles(s.actors[a], digest) then ManifestFacts(s, digest) == Some(facts) else
    match s.actors[a]
    case Pinned(_, f) => f == facts
    case Recording(_, f, file) => f == facts && PendingIs(s, digest, file) && s.files[(digest, file)].size == 0
    case Recorded(_, f, file) => PendingIs(s, digest, file) && s.files[(digest, file)].facts == Some(facts)
    case _ => false
  }

  predicate PendingIs(s: State, digest: Digest, file: nat) {
    digest in s.pending && s.pending[digest] == file && (digest, file) in s.files
  }

  /** The object has the facts, and the manifest has them too or the admission is about to put them there. */
  predicate Holding(s: State, a: nat, digest: Digest, facts: Facts) {
    Matches(s, digest, facts) && OnRecord(s, a, digest, facts)
  }

  /** What can spoil an admission: its digest published, recorded or evicted by another, its file changed, or its own end. */
  predicate Interferes(s: State, step: Step, a: nat, digest: Digest, facts: Facts) {
    match step
    case Publish(b) => b in s.actors && s.actors[b].Sealed? && s.actors[b].digest == digest
    case OpenManifest(b, _) => b != a && b in s.actors && Handles(s.actors[b], digest)
    case WriteBody(b, _) => b != a && b in s.actors && Handles(s.actors[b], digest)
    case RenameManifest(b) => b != a && b in s.actors && Handles(s.actors[b], digest)
    case EvictObject(_, d) => d == digest
    case EvictManifest(b) => b in s.actors && s.actors[b] == Evicting(digest)
    case Overwrite(inode, _, _) => inode == facts.inode
    case HardLink(inode) => inode == facts.inode
    case Crash(b) => b == a && b in s.actors && Handles(s.actors[b], digest)
    case Abandon(b) => b == a && b in s.actors && Handles(s.actors[b], digest)
    case _ => false
  }

  ghost predicate QuietRun(s: State, steps: seq<Step>, a: nat, digest: Digest, facts: Facts, sha: bytes -> Digest)
    decreases |steps|
  {
    steps == [] ||
    (Allowed(s, steps[0]) && !Interferes(s, steps[0], a, digest, facts) && Next(s, steps[0], sha).Some?
     && QuietRun(Next(s, steps[0], sha).value, steps[1..], a, digest, facts, sha))
  }

  lemma QuietStep(s: State, step: Step, a: nat, digest: Digest, facts: Facts, sha: bytes -> Digest)
    requires NamesSound(s) && Holding(s, a, digest, facts)
    requires !Interferes(s, step, a, digest, facts) && Next(s, step, sha).Some?
    ensures Holding(Next(s, step, sha).value, a, digest, facts)
  {
    hide NamesSound, Interferes, Next, Matches;
    QuietFile(s, step, a, digest, facts, sha);
    QuietRecord(s, step, a, digest, facts, sha);
  }

  lemma QuietRecord(s: State, step: Step, a: nat, digest: Digest, facts: Facts, sha: bytes -> Digest)
    requires OnRecord(s, a, digest, facts)
    requires !Interferes(s, step, a, digest, facts) && Next(s, step, sha).Some?
    ensures OnRecord(Next(s, step, sha).value, a, digest, facts)
  {
    hide Matches, Touch, Unlink;
    var t := Next(s, step, sha).value;
    if step.OpenManifest? || step.WriteBody? || step.RenameManifest? {
      QuietManifest(s, step, a, digest, facts, sha);
    } else {
      QuietElsewhere(s, step, a, digest, facts, sha);
    }
  }

  lemma QuietManifest(s: State, step: Step, a: nat, digest: Digest, facts: Facts, sha: bytes -> Digest)
    requires OnRecord(s, a, digest, facts) && (step.OpenManifest? || step.WriteBody? || step.RenameManifest?)
    requires !Interferes(s, step, a, digest, facts) && Next(s, step, sha).Some?
    ensures OnRecord(Next(s, step, sha).value, a, digest, facts)
  {
  }

  lemma QuietElsewhere(s: State, step: Step, a: nat, digest: Digest, facts: Facts, sha: bytes -> Digest)
    requires OnRecord(s, a, digest, facts) && !step.OpenManifest? && !step.WriteBody? && !step.RenameManifest?
    requires !Interferes(s, step, a, digest, facts) && Next(s, step, sha).Some?
    ensures OnRecord(Next(s, step, sha).value, a, digest, facts)
  {
    hide Next, Interferes, Handles, RecordsAlike;
    var t := Next(s, step, sha).value;
    if step.Publish? || step.Abandon? || step.EvictObject? {
      UnlinkingRecords(s, step, a, digest, facts, sha);
    } else if step.Begin? || step.Block? || step.Seal? || step.Overwrite? || step.HardLink? {
      TouchingRecords(s, step, a, digest, facts, sha);
    } else if step.Pin? {
      PinRecords(s, step.actor, a, digest, facts, sha);
    } else if step.ReadManifest? {
      ReadRecords(s, step.actor, step.digest, a, digest, sha);
    } else {
      OtherRecords(s, step, a, digest, facts, sha);
    }
    OnRecordAlike(s, t, a, digest, facts);
  }

  /** The manifests of the digest are untouched, and the admission handles it as before. */
  predicate RecordsAlike(s: State, t: State, a: nat, digest: Digest) {
    && t.files == s.files && t.pending == s.pending
    && (digest in t.manifests <==> digest in s.manifests)
    && (digest in s.manifests ==> t.manifests[digest] == s.manifests[digest])
    && (a in t.actors && Handles(t.actors[a], digest) <==> a in s.actors && Handles(s.actors[a], digest))
    && (a in s.actors && Handles(s.actors[a], digest) ==> t.actors[a] == s.actors[a])
  }

  lemma OnRecordAlike(s: State, t: State, a: nat, digest: Digest, facts: Facts)
    requires OnRecord(s, a, digest, facts) && RecordsAlike(s, t, a, digest)
    ensures OnRecord(t, a, digest, facts)
  {
  }

  lemma UnlinkingRecords(s: State, step: Step, a: nat, digest: Digest, facts: Facts, sha: bytes -> Digest)
    requires !Interferes(s, step, a, digest, facts) && Next(s, step, sha).Some?
    requires step.Publish? || step.Abandon? || step.EvictObject?
    ensures RecordsAlike(s, Next(s, step, sha).value, a, digest)
  {
    hide Unlink, Matches, WriteAt;
    if step.Publish? {
      var other := s.actors[step.actor].digest;
      if other in s.objects {
        UnlinkFrame(s, s.objects[other]);
      }
    } else if step.EvictObject? {
      UnlinkFrame(s, s.objects[step.digest]);
    } else if TmpOf(s.actors[step.actor]).Some? {
      UnlinkFrame(s, s.actors[step.actor].tmp);
    }
  }

  lemma TouchingRecords(s: State, step: Step, a: nat, digest: Digest, facts: Facts, sha: bytes -> Digest)
    requires !Interferes(s, step, a, digest, facts) && Next(s, step, sha).Some?
    requires step.Begin? || step.Block? || step.Seal? || step.Overwrite? || step.HardLink?
    ensures RecordsAlike(s, Next(s, step, sha).value, a, digest)
  {
    hide Unlink, Matches, WriteAt;
  }

  lemma PinRecords(s: State, b: nat, a: nat, digest: Digest, facts: Facts, sha: bytes -> Digest)
    requires OnRecord(s, a, digest, facts) && Next(s, Pin(b), sha).Some?
    ensures RecordsAlike(s, Next(s, Pin(b), sha).value, a, digest)
  {
    hide ManifestFacts, PendingIs;
  }

  lemma OtherRecords(s: State, step: Step, a: nat, digest: Digest, facts: Facts, sha: bytes -> Digest)
    requires !Interferes(s, step, a, digest, facts) && Next(s, step, sha).Some?
    requires step.Crash? || step.EvictManifest? || step.OpenObject?
    ensures RecordsAlike(s, Next(s, step, sha).value, a, digest)
  {
    hide Unlink, Touch, Matches, WriteAt, Handles;
    if step.OpenObject? {
      OpenRecords(s, step.actor, a, digest, sha);
    } else {
      var t := Next(s, step, sha).value;
      assert t.actors == s.actors - {step.actor};
      if step.EvictManifest? {
        NotHandling(s.actors[step.actor], digest);
      }
    }
  }

  lemma NotHandling(actor: Actor, digest: Digest)
    requires actor.Evicting? || actor.Resolving?
    ensures !Handles(actor, digest)
  {
  }

  lemma OpenRecords(s: State, b: nat, a: nat, digest: Digest, sha: bytes -> Digest)
    requires Next(s, OpenObject(b), sha).Some?
    ensures RecordsAlike(s, Next(s, OpenObject(b), sha).value, a, digest)
  {
    hide Matches, Handles;
    NotHandling(s.actors[b], digest);
  }

  lemma ReadRecords(s: State, b: nat, read: Digest, a: nat, digest: Digest, sha: bytes -> Digest)
    requires Next(s, ReadManifest(b, read), sha).Some?
    ensures RecordsAlike(s, Next(s, ReadManifest(b, read), sha).value, a, digest)
  {
    hide ManifestFacts;
  }

  lemma QuietFile(s: State, step: Step, a: nat, digest: Digest, facts: Facts, sha: bytes -> Digest)
    requires NamesSound(s) && Matches(s, digest, facts)
    requires !Interferes(s, step, a, digest, facts) && Next(s, step, sha).Some?
    ensures Matches(Next(s, step, sha).value, digest, facts)
  {
    if step.Publish? || step.Abandon? || step.EvictObject? {
      QuietUnlink(s, step, a, digest, facts, sha);
    } else {
      hide WriteAt, Unlink, ManifestFacts, WrittenOver;
      if step.Block? || step.Seal? {
        assert TmpOf(s.actors[step.actor]) != Some(facts.inode);
      }
    }
  }

  lemma QuietUnlink(s: State, step: Step, a: nat, digest: Digest, facts: Facts, sha: bytes -> Digest)
    requires NamesSound(s) && Matches(s, digest, facts) && (step.Publish? || step.Abandon? || step.EvictObject?)
    requires !Interferes(s, step, a, digest, facts) && Next(s, step, sha).Some?
    ensures Matches(Next(s, step, sha).value, digest, facts)
  {
    hide Unlink, Touch;
    if step.Publish? {
      var Sealed(tmp, other) := s.actors[step.actor];
      assert TmpOf(s.actors[step.actor]) != Some(facts.inode);
      var freed := if other in s.objects then Unlink(s, s.objects[other]) else s;
      if other in s.objects {
        UnlinkOther(s, s.objects[other], facts.inode);
      }
      TouchedFile(freed, tmp, s.inodes[tmp].content, s.inodes[tmp].mtime, s.inodes[tmp].nlink);
    } else if step.EvictObject? {
      UnlinkOther(s, s.objects[step.digest], facts.inode);
    } else if TmpOf(s.actors[step.actor]).Some? {
      assert TmpOf(s.actors[step.actor]) != Some(facts.inode);
      UnlinkOther(s, s.actors[step.actor].tmp, facts.inode);
    }
  }

  lemma UnlinkOther(s: State, inode: nat, other: nat)
    requires other in s.inodes && other != inode
    ensures other in Unlink(s, inode).inodes && Unlink(s, inode).inodes[other] == s.inodes[other]
    ensures Unlink(s, inode).objects == s.objects
  {
    if inode in s.inodes && s.inodes[inode].nlink > 1 {
      TouchedFile(s, inode, s.inodes[inode].content, s.inodes[inode].mtime, s.inodes[inode].nlink - 1);
    }
  }

  lemma {:induction false} QuietRunKeeps(s: State, steps: seq<Step>, a: nat, digest: Digest, facts: Facts, sha: bytes -> Digest)
    requires Sound(s, sha) && Holding(s, a, digest, facts) && QuietRun(s, steps, a, digest, facts, sha)
    ensures Run(s, steps, sha).Some?
    ensures Sound(Run(s, steps, sha).value, sha) && Holding(Run(s, steps, sha).value, a, digest, facts)
    decreases |steps|
  {
    hide Sound, Next, Allowed, Interferes, Holding;
    if steps != [] {
      SoundNames(s, sha);
      QuietStep(s, steps[0], a, digest, facts, sha);
      StepKeeps(s, steps[0], sha);
      QuietRunKeeps(Next(s, steps[0], sha).value, steps[1..], a, digest, facts, sha);
    }
  }

  lemma SoundNames(s: State, sha: bytes -> Digest)
    requires Sound(s, sha)
    ensures NamesSound(s)
  {
  }

  /**
   * An admission that has taken its facts and that nobody interferes with resolves once it has
   * finished, and goes on resolving for as long as nobody interferes, to bytes that hash to it.
   */
  lemma {:induction false} UndisturbedAdmissionResolves(s: State, steps: seq<Step>, a: nat, digest: Digest, sha: bytes -> Digest)
    requires Sound(s, sha) && a in s.actors && s.actors[a] == Published(digest) && Next(s, Pin(a), sha).Some?
    requires var pinned := Next(s, Pin(a), sha).value;
      && QuietRun(pinned, steps, a, digest, pinned.actors[a].facts, sha)
      && Run(pinned, steps, sha).Some? && a !in Run(pinned, steps, sha).value.actors
    ensures var end := Run(s, [Pin(a)] + steps, sha);
      end.Some? && Resolvable(end.value, digest) && sha(end.value.inodes[end.value.objects[digest]].content) == digest
  {
    hide Sound, NamesSound;
    var pinned := Next(s, Pin(a), sha).value;
    var facts := pinned.actors[a].facts;
    StepKeeps(s, Pin(a), sha);
    QuietRunKeeps(pinned, steps, a, digest, facts, sha);
    RunCons(s, Pin(a), pinned, steps, sha);
    var end := Run(pinned, steps, sha).value;
    ResolvableSound(end, digest, sha);
  }

  lemma ResolvableSound(s: State, digest: Digest, sha: bytes -> Digest)
    requires Sound(s, sha) && Resolvable(s, digest)
    ensures sha(s.inodes[s.objects[digest]].content) == digest
  {
    var f := (digest, s.manifests[digest]);
    assert f in s.files;
    assert ClaimSound(s, digest, s.files[f].facts.value, sha);
  }

  // Two admissions of one digest share the temporary name of its manifest

  /** Somebody opens the temporary manifest of this digest in the course of these steps. */
  predicate OpenedMeanwhile(s: State, steps: seq<Step>, digest: Digest, sha: bytes -> Digest)
    decreases |steps|
  {
    steps != [] && Next(s, steps[0], sha).Some? &&
    ((steps[0].OpenManifest? && s.actors[steps[0].actor].digest == digest)
     || OpenedMeanwhile(Next(s, steps[0], sha).value, steps[1..], digest, sha))
  }

  /** Somebody renames it, and nobody opens it after that. */
  predicate RenamedLast(s: State, steps: seq<Step>, digest: Digest, sha: bytes -> Digest)
    decreases |steps|
  {
    steps != [] && Next(s, steps[0], sha).Some? &&
    (RenamedLast(Next(s, steps[0], sha).value, steps[1..], digest, sha)
     || (steps[0].RenameManifest? && s.actors[steps[0].actor].digest == digest
         && !OpenedMeanwhile(Next(s, steps[0], sha).value, steps[1..], digest, sha)))
  }

  lemma {:induction false} PendingUntilRenamed(s: State, steps: seq<Step>, digest: Digest, sha: bytes -> Digest)
    requires Run(s, steps, sha).Some?
    ensures digest in Run(s, steps, sha).value.pending <==>
      (digest in s.pending || OpenedMeanwhile(s, steps, digest, sha)) && !RenamedLast(s, steps, digest, sha)
    decreases |steps|
  {
    hide Next;
    if steps != [] {
      PendingStep(s, steps[0], digest, sha);
      PendingUntilRenamed(Next(s, steps[0], sha).value, steps[1..], digest, sha);
    }
  }

  lemma PendingStep(s: State, step: Step, digest: Digest, sha: bytes -> Digest)
    requires Next(s, step, sha).Some?
    ensures var t := Next(s, step, sha).value;
      digest in t.pending <==>
        || (step.OpenManifest? && s.actors[step.actor].digest == digest)
        || (digest in s.pending && !(step.RenameManifest? && s.actors[step.actor].digest == digest))
    ensures step.RenameManifest? ==> s.actors[step.actor].digest in s.pending
  {
    hide Unlink, Touch, Matches, WriteAt, ManifestFacts;
    if step.Publish? || step.Abandon? || step.EvictObject? {
      UnlinkingManifests(s, step, sha);
    } else if step.Begin? || step.Block? || step.Seal? || step.Overwrite? || step.HardLink? {
      TouchingManifests(s, step, sha);
    }
  }

  lemma UnlinkingManifests(s: State, step: Step, sha: bytes -> Digest)
    requires Next(s, step, sha).Some? && (step.Publish? || step.Abandon? || step.EvictObject?)
    ensures Next(s, step, sha).value.pending == s.pending && Next(s, step, sha).value.files == s.files
  {
    hide Unlink, Matches, WriteAt;
    if step.Publish? {
      var other := s.actors[step.actor].digest;
      if other in s.objects {
        UnlinkFrame(s, s.objects[other]);
      }
    } else if step.EvictObject? {
      UnlinkFrame(s, s.objects[step.digest]);
    } else if TmpOf(s.actors[step.actor]).Some? {
      UnlinkFrame(s, s.actors[step.actor].tmp);
    }
  }

  lemma TouchingManifests(s: State, step: Step, sha: bytes -> Digest)
    requires Next(s, step, sha).Some?
    requires step.Begin? || step.Block? || step.Seal? || step.Overwrite? || step.HardLink?
    ensures Next(s, step, sha).value.pending == s.pending && Next(s, step, sha).value.files == s.files
  {
    hide Unlink, Matches, WriteAt;
  }

  /**
   * An admission that has opened the temporary manifest finds it gone when it comes to rename it, and raises though its
   * object is published, if and only if another admission of the digest renamed it meanwhile and none opened it after that.
   */
  lemma RenameFailsExactly(s: State, steps: seq<Step>, a: nat, digest: Digest, sha: bytes -> Digest)
    requires digest in s.pending && Run(s, steps, sha).Some?
    requires var t := Run(s, steps, sha).value; a in t.actors && t.actors[a].Recorded? && t.actors[a].digest == digest
    ensures Next(Run(s, steps, sha).value, RenameManifest(a), sha).None? <==> RenamedLast(s, steps, digest, sha)
  {
    hide Run, Next, OpenedMeanwhile, RenamedLast;
    PendingUntilRenamed(s, steps, digest, sha);
    CannotRename(Run(s, steps, sha).value, a, digest, sha);
  }

  // What the manifest is left holding

  /** A body written to a manifest file: the facts in it, and its size. */
  datatype Written = Written(facts: Facts, size: nat)

  predicate OpensFile(s: State, step: Step, digest: Digest, file: nat) {
    && step.OpenManifest? && step.file == file
    && step.actor in s.actors && s.actors[step.actor].Pinned? && s.actors[step.actor].digest == digest
  }

  predicate WritesFile(s: State, step: Step, digest: Digest, file: nat) {
    && step.WriteBody? && step.actor in s.actors
    && s.actors[step.actor].Recording? && s.actors[step.actor].digest == digest && s.actors[step.actor].file == file
  }

  /** Whatever anybody has written to the file since it was last opened. */
  function WrittenSince(s: State, steps: seq<Step>, digest: Digest, file: nat, sha: bytes -> Digest, before: seq<Written>): seq<Written>
    decreases |steps|
  {
    if steps == [] || Next(s, steps[0], sha).None? then before else
    var now :=
      if OpensFile(s, steps[0], digest, file) then []
      else if WritesFile(s, steps[0], digest, file) then before + [Written(s.actors[steps[0].actor].facts, steps[0].size)]
      else before;
    WrittenSince(Next(s, steps[0], sha).value, steps[1..], digest, file, sha, now)
  }

  /** The last body has these facts, and none written before it is longer. */
  predicate LastAndLongest(written: seq<Written>, facts: Facts) {
    && written != [] && written[|written| - 1].facts == facts
    && forall i :: 0 <= i < |written| ==> written[i].size <= written[|written| - 1].size
  }

  /** No body is longer than this, and one of them is as long. */
  predicate LongestIs(written: seq<Written>, size: nat) {
    && (forall i :: 0 <= i < |written| ==> written[i].size <= size)
    && if written == [] then size == 0 else exists i :: 0 <= i < |written| && written[i].size == size
  }

  predicate Reflects(body: Body, written: seq<Written>) {
    && LongestIs(written, body.size)
    && (body.facts.Some? ==> LastAndLongest(written, body.facts.value))
    && (written != [] && LastAndLongest(written, written[|written| - 1].facts) ==> body.facts.Some?)
  }

  lemma OneMoreBody(body: Body, written: seq<Written>, one: Written)
    requires Reflects(body, written)
    ensures Reflects(if body.size > one.size then Body(None, body.size) else Body(Some(one.facts), one.size), written + [one])
  {
    var more := written + [one];
    assert more[|written|] == one;
    if body.size > one.size {
      var i :| 0 <= i < |written| && written[i].size == body.size;
      assert more[i].size == body.size;
    }
  }

  lemma ManifestStep(s: State, step: Step, digest: Digest, file: nat, sha: bytes -> Digest)
    requires Next(s, step, sha).Some? && (digest, file) in s.files
    ensures var t := Next(s, step, sha).value; var body := s.files[(digest, file)];
      && (digest, file) in t.files
      && (OpensFile(s, step, digest, file) ==> t.files[(digest, file)] == Body(None, 0))
      && (WritesFile(s, step, digest, file) ==>
            t.files[(digest, file)] == WrittenOver(s, digest, file, s.actors[step.actor].facts, step.size))
      && (!OpensFile(s, step, digest, file) && !WritesFile(s, step, digest, file) ==> t.files[(digest, file)] == body)
  {
    hide Unlink, Touch, Matches, WriteAt, ManifestFacts, WrittenOver;
    if step.Publish? || step.Abandon? || step.EvictObject? {
      UnlinkingManifests(s, step, sha);
    } else if step.Begin? || step.Block? || step.Seal? || step.Overwrite? || step.HardLink? {
      TouchingManifests(s, step, sha);
    }
  }

  lemma {:induction false} FileReflects(
      s: State, steps: seq<Step>, digest: Digest, file: nat, sha: bytes -> Digest, before: seq<Written>)
    requires Run(s, steps, sha).Some? && (digest, file) in s.files && Reflects(s.files[(digest, file)], before)
    ensures (digest, file) in Run(s, steps, sha).value.files
    ensures Reflects(Run(s, steps, sha).value.files[(digest, file)], WrittenSince(s, steps, digest, file, sha, before))
    decreases |steps|
  {
    hide Next, Reflects;
    if steps != [] {
      var t := Next(s, steps[0], sha).value;
      ManifestStep(s, steps[0], digest, file, sha);
      var now := before;
      if OpensFile(s, steps[0], digest, file) {
        NothingWritten();
        now := [];
      } else if WritesFile(s, steps[0], digest, file) {
        var one := Written(s.actors[steps[0].actor].facts, steps[0].size);
        OneMoreBody(s.files[(digest, file)], before, one);
        now := before + [one];
      }
      FileReflects(t, steps[1..], digest, file, sha, now);
    }
  }

  lemma NothingWritten()
    ensures Reflects(Body(None, 0), [])
  {
  }

  /**
   * Over every run from the opening of a temporary manifest on, whoever opens, writes and renames it: the file holds
   * readable facts if and only if a body was written since it was last opened, the last one has these facts, and none
   * before it was longer. So does the manifest of the digest, once and for as long as the file has its name.
   */
  lemma ManifestLeftExactly(s: State, steps: seq<Step>, digest: Digest, file: nat, sha: bytes -> Digest, facts: Facts)
    requires Run(s, steps, sha).Some? && (digest, file) in s.files && s.files[(digest, file)] == Body(None, 0)
    ensures var end := Run(s, steps, sha).value; var written := WrittenSince(s, steps, digest, file, sha, []);
      && (digest, file) in end.files
      && (end.files[(digest, file)].facts == Some(facts) <==> LastAndLongest(written, facts))
      && (digest in end.manifests && end.manifests[digest] == file ==>
            (ManifestFacts(end, digest) == Some(facts) <==> LastAndLongest(written, facts)))
  {
    hide Run, Next, WrittenSince;
    NothingWritten();
    FileReflects(s, steps, digest, file, sha, []);
  }

  /** In particular after a rename: what it leaves as the manifest is what was written to the file last, if that was longest. */
  lemma RenameLeavesExactly(s: State, steps: seq<Step>, a: nat, digest: Digest, file: nat, sha: bytes -> Digest, facts: Facts)
    requires Run(s, steps, sha).Some? && (digest, file) in s.files && s.files[(digest, file)] == Body(None, 0)
    requires var t := Run(s, steps, sha).value;
      && a in t.actors && t.actors[a].Recorded? && t.actors[a].digest == digest && digest in t.pending && t.pending[digest] == file
    ensures var end := Next(Run(s, steps, sha).value, RenameManifest(a), sha);
      && end.Some?
      && (ManifestFacts(end.value, digest) == Some(facts) <==> LastAndLongest(WrittenSince(s, steps, digest, file, sha, []), facts))
  {
    hide Run, Next, WrittenSince, LastAndLongest;
    ManifestLeftExactly(s, steps, digest, file, sha, facts);
    var end := Renames(Run(s, steps, sha).value, a, digest, sha);
  }

  /**
   * It happens: of two admissions of one digest that take turns like this, one renames what the other wrote last, the
   * other cannot finish, and if the body written last was the shorter one nothing resolves at all.
   */
  lemma {:induction false} TogetherOneFails(s: State, a: nat, b: nat, digest: Digest, fa: Facts, fb: Facts, file: nat, sizeA: nat, sizeB: nat, sha: bytes -> Digest)
    requires a != b && a in s.actors && b in s.actors && s.actors[a] == Pinned(digest, fa) && s.actors[b] == Pinned(digest, fb)
    requires MayOpen(s, digest, file)
    ensures var end := Run(s, [OpenManifest(a, file), OpenManifest(b, file), WriteBody(a, sizeA), WriteBody(b, sizeB), RenameManifest(a)], sha);
      && end.Some? && Next(end.value, RenameManifest(b), sha).None?
      && ManifestFacts(end.value, digest) == if sizeA <= sizeB then Some(fb) else None
  {
    hide Run, Next;
    var s1 := Opens(s, a, digest, fa, file, sha);
    var s2 := Opens(s1, b, digest, fb, file, sha);
    var s3 := Writes(s2, a, digest, fa, file, sizeA, sha);
    var s4 := Writes(s3, b, digest, fb, file, sizeB, sha);
    var s5 := Renames(s4, a, digest, sha);
    CannotRename(s5, b, digest, sha);
    RunFive(s, s1, s2, s3, s4, s5, [OpenManifest(a, file), OpenManifest(b, file), WriteBody(a, sizeA), WriteBody(b, sizeB), RenameManifest(a)], sha);
  }

  lemma CannotRename(s: State, a: nat, digest: Digest, sha: bytes -> Digest)
    requires a in s.actors && s.actors[a].Recorded? && s.actors[a].digest == digest
    ensures Next(s, RenameManifest(a), sha).None? <==> digest !in s.pending
  {
  }

  lemma {:induction false} RunFive(s: State, s1: State, s2: State, s3: State, s4: State, s5: State, steps: seq<Step>, sha: bytes -> Digest)
    requires |steps| == 5 && Next(s, steps[0], sha) == Some(s1) && Next(s1, steps[1], sha) == Some(s2)
    requires Next(s2, steps[2], sha) == Some(s3) && Next(s3, steps[3], sha) == Some(s4) && Next(s4, steps[4], sha) == Some(s5)
    ensures Run(s, steps, sha) == Some(s5)
  {
    hide Next;
    assert Run(s4, steps[4..], sha) == Some(s5);
    assert Run(s3, steps[3..], sha) == Some(s5) by {
      assert steps[3..][1..] == steps[4..];
    }
    assert Run(s2, steps[2..], sha) == Some(s5) by {
      assert steps[2..][1..] == steps[3..];
    }
    assert Run(s1, steps[1..], sha) == Some(s5) by {
      assert steps[1..][1..] == steps[2..];
    }
  }
}
