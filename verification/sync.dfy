/** Bringing an environment in line with a lockfile (core/src/commands/sync.rs). */
module Sync {
  import opened Common
  import opened Lockfile

  /** Installed versions with the checksum recorded for them, if any. */
  type Entries = map<(string, string), Option<Checksum>>

  datatype ChecksumResult = VersionNotFound | ChecksumNotPresent | DifferentChecksumKinds | Mismatch | Match

  function Verified(e: Entries, iri: string, version: string, expected: Checksum): ChecksumResult {
    if (iri, version) !in e then VersionNotFound
    else
      match e[(iri, version)]
      case None => ChecksumNotPresent
      case Some(actual) =>
        if actual.ProjectChecksum? != expected.ProjectChecksum? then DifferentChecksumKinds
        else if actual.hex == expected.hex then Match
        else Mismatch
  }

  /** What a source turns out to be. */
  datatype Storage = NoHandler | CreateFailed | ReadFailed | Holds(actual: Checksum)

  /** Everything outside: the provided IRIs, the storages, and which reads and installs fail. */
  datatype World = World(
    canonical: string -> string,
    provided: map<string, seq<string>>,
    storage: Source -> Storage,
    installFails: (string, string, Source) -> bool,
    unreadable: (string, string) -> bool)

  datatype SyncError =
    | InvalidProvidedVersion(iri: string)
    | MissingSource
    | EnvRead
    | MissingIri(source: Source)
    | MissingStorage(source: Source)
    | InvalidRemoteSource(source: Source)
    | GitDownload(source: Source)
    | ProjectRead(source: Source)
    | BadChecksum(iri: string, expected: Checksum, actual: Checksum)
    | InstallFail(iri: string)
    | UnsupportedSources

  datatype Write = Write(iri: string, version: string, checksum: Option<Checksum>)

  function Apply(e: Entries, writes: seq<Write>): Entries
    decreases |writes|
  {
    if writes == [] then e
    else Apply(e[(writes[0].iri, writes[0].version) := writes[0].checksum], writes[1..])
  }

  /** What a stretch of the run does. */
  datatype Effect = Effect(error: Option<SyncError>, writes: seq<Write>)

  // ---- the steps of the run ----

  datatype Provision = NotProvided | Provided | WrongVersion(iri: string)

  function FirstProvided(w: World, ids: seq<string>, version: string): Provision {
    if ids == [] then NotProvided
    else if w.canonical(ids[0]) in w.provided then
      if version in w.provided[w.canonical(ids[0])] then Provided else WrongVersion(ids[0])
    else FirstProvided(w, ids[1..], version)
  }

  /** The first provided identifier decides, whatever is provided for later ones. */
  lemma {:induction false} FirstProvidedIs(w: World, ids: seq<string>, version: string)
    ensures FirstProvided(w, ids, version).NotProvided? <==> forall id | id in ids :: w.canonical(id) !in w.provided
    ensures !FirstProvided(w, ids, version).NotProvided? ==>
              exists k | 0 <= k < |ids| :: (forall j | 0 <= j < k :: w.canonical(ids[j]) !in w.provided) &&
                w.canonical(ids[k]) in w.provided && FirstProvided(w, ids, version) ==
                  if version in w.provided[w.canonical(ids[k])] then Provided else WrongVersion(ids[k])
  {
    if ids != [] && w.canonical(ids[0]) !in w.provided {
      FirstProvidedIs(w, ids[1..], version);
      assert forall id | id in ids :: id == ids[0] || id in ids[1..];
      if !FirstProvided(w, ids[1..], version).NotProvided? {
        var k :| 0 <= k < |ids[1..]| && (forall j | 0 <= j < k :: w.canonical(ids[1..][j]) !in w.provided) &&
          w.canonical(ids[1..][k]) in w.provided && FirstProvided(w, ids[1..], version) ==
            if version in w.provided[w.canonical(ids[1..][k])] then Provided else WrongVersion(ids[1..][k]);
        assert ids[k + 1] == ids[1..][k];
        assert forall j | 0 < j < k + 1 :: ids[j] == ids[1..][j - 1];
      }
    }
  }

  datatype Scan = Found | Absent | Unreadable

  function ScanSources(w: World, e: Entries, iri: string, version: string, sources: seq<Source>): Scan {
    if sources == [] then Absent
    else
      match ToChecksum(sources[0])
      case None => ScanSources(w, e, iri, version, sources[1..])
      case Some(c) =>
        if w.unreadable(iri, version) then Unreadable
        else if Verified(e, iri, version, c) == Match then Found
        else ScanSources(w, e, iri, version, sources[1..])
  }

  function ScanIds(w: World, e: Entries, ids: seq<string>, version: string, sources: seq<Source>): Scan {
    if ids == [] then Absent
    else
      match ScanSources(w, e, ids[0], version, sources)
      case Absent => ScanIds(w, e, ids[1..], version, sources)
      case decided => decided
  }

  /** One source that is not editable: the error, or the write. */
  function InstallOne(w: World, p: Project, s: Source): Result<Write, SyncError>
    requires !s.Editable?
  {
    if p.identifiers == [] then Err(MissingIri(s))
    else
      var uri := p.identifiers[0];
      match w.storage(s)
      case NoHandler => Err(MissingStorage(s))
      case CreateFailed => Err(if s.RemoteGit? then GitDownload(s) else InvalidRemoteSource(s))
      case ReadFailed =>
        if s.RemoteGit? then Err(InstallFail(uri)) else Err(ProjectRead(s))
      case Holds(actual) =>
        if s.RemoteGit? then
          if w.installFails(uri, p.version, s) then Err(InstallFail(uri)) else Ok(Write(uri, p.version, None))
        else if ToChecksum(s) != Some(actual) then Err(BadChecksum(uri, ToChecksum(s).value, actual))
        else if w.installFails(uri, p.version, s) then Err(InstallFail(uri))
        else Ok(Write(uri, p.version, Some(actual)))
  }

  /** All sources in turn; an editable one ends the project. */
  function InstallAll(w: World, p: Project, sources: seq<Source>): Effect {
    if sources == [] || sources[0].Editable? then Effect(None, [])
    else
      match InstallOne(w, p, sources[0])
      case Err(e) => Effect(Some(e), [])
      case Ok(write) =>
        var rest := InstallAll(w, p, sources[1..]);
        Effect(rest.error, [write] + rest.writes)
  }

  function SyncProject(w: World, e: Entries, p: Project): Effect {
    match FirstProvided(w, p.identifiers, p.version)
    case Provided => Effect(None, [])
    case WrongVersion(iri) => Effect(Some(InvalidProvidedVersion(iri)), [])
    case NotProvided =>
      if p.sources == [] then Effect(Some(MissingSource), [])
      else
        match ScanIds(w, e, p.identifiers, p.version, p.sources)
        case Unreadable => Effect(Some(EnvRead), [])
        case Found => Effect(None, [])
        case Absent => InstallAll(w, p, p.sources)
  }

  function SyncAll(w: World, e: Entries, ps: seq<Project>): Effect
    decreases |ps|
  {
    if ps == [] then Effect(None, [])
    else
      var first := SyncProject(w, e, ps[0]);
      if first.error.Some? then first
      else
        var rest := SyncAll(w, Apply(e, first.writes), ps[1..]);
        Effect(rest.error, first.writes + rest.writes)
  }

  // ---- the command ----

  class Environment {
    var entries: Entries
    ghost var log: seq<Write>

    constructor (entries: Entries)
      ensures this.entries == entries && log == []
    {
      this.entries, log := entries, [];
    }

    /** `put_project`: overwrites what is there. */
    method Put(iri: string, version: string, checksum: Option<Checksum>)
      modifies this
      ensures entries == old(entries)[(iri, version) := checksum]
      ensures log == old(log) + [Write(iri, version, checksum)]
    {
      entries := entries[(iri, version) := checksum];
      log := log + [Write(iri, version, checksum)];
    }
  }

  lemma {:induction false} ApplyConcat(e: Entries, a: seq<Write>, b: seq<Write>)
    ensures Apply(e, a + b) == Apply(Apply(e, a), b)
    decreases |a|
  {
    if a == [] {
      assert a + b == b;
    } else {
      assert (a + b)[1..] == a[1..] + b;
      ApplyConcat(e[(a[0].iri, a[0].version) := a[0].checksum], a[1..], b);
    }
  }

  /** The environment is where `writes` on top of `e` lead. */
  ghost predicate At(env: Environment, e: Entries, writes: seq<Write>)
    reads env
  {
    env.log == writes && env.entries == Apply(e, writes)
  }

  method CheckProvided(w: World, p: Project) returns (r: Provision)
    ensures r == FirstProvided(w, p.identifiers, p.version)
  {
    assert p.identifiers[0..] == p.identifiers;
    for i := 0 to |p.identifiers|
      invariant FirstProvided(w, p.identifiers[i..], p.version) == FirstProvided(w, p.identifiers, p.version)
    {
      var iri := p.identifiers[i];
      assert p.identifiers[i..][1..] == p.identifiers[i + 1..];
      if w.canonical(iri) in w.provided {
        var versions := w.provided[w.canonical(iri)];
        for k := 0 to |versions|
          invariant p.version !in versions[..k]
        {
          if p.version == versions[k] {
            return Provided;
          }
        }
        assert versions[..|versions|] == versions;
        return WrongVersion(iri);
      }
    }
    r := NotProvided;
  }

  method CheckInstalled(w: World, e: Entries, p: Project) returns (r: Scan)
    ensures r == ScanIds(w, e, p.identifiers, p.version, p.sources)
  {
    assert p.identifiers[0..] == p.identifiers;
    for i := 0 to |p.identifiers|
      invariant ScanIds(w, e, p.identifiers[i..], p.version, p.sources) ==
          ScanIds(w, e, p.identifiers, p.version, p.sources)
    {
      var iri := p.identifiers[i];
      assert p.identifiers[i..][1..] == p.identifiers[i + 1..];
      assert p.sources[0..] == p.sources;
      for k := 0 to |p.sources|
        invariant ScanSources(w, e, iri, p.version, p.sources[k..]) == ScanSources(w, e, iri, p.version, p.sources)
      {
        assert p.sources[k..][1..] == p.sources[k + 1..];
        var checksum := ToChecksum(p.sources[k]);
        if checksum.Some? {
          if w.unreadable(iri, p.version) {
            return Unreadable;
          }
          if Verified(e, iri, p.version, checksum.value) == Match {
            return Found;
          }
        }
      }
    }
    r := Absent;
  }

  /** What is still ahead of a run that made the writes `done`. */
  ghost predicate Ahead(goal: Effect, done: seq<Write>, rest: Effect) {
    goal == Effect(rest.error, done + rest.writes)
  }

  lemma AheadOf(goal: Effect, done: seq<Write>, next: seq<Write>, rest: Effect)
    requires Ahead(goal, done, Effect(rest.error, next + rest.writes))
    ensures Ahead(goal, done + next, rest)
  {
    assert done + (next + rest.writes) == done + next + rest.writes;
  }

  lemma InstallStep(w: World, p: Project, goal: Effect, done: seq<Write>, k: nat)
    requires k < |p.sources| && !p.sources[k].Editable?
    requires Ahead(goal, done, InstallAll(w, p, p.sources[k..]))
    ensures match InstallOne(w, p, p.sources[k])
            case Err(e) => goal == Effect(Some(e), done)
            case Ok(write) => Ahead(goal, done + [write], InstallAll(w, p, p.sources[k + 1..]))
  {
    assert p.sources[k..][1..] == p.sources[k + 1..];
    assert done + [] == done;
    match InstallOne(w, p, p.sources[k])
    case Err(_) =>
    case Ok(write) =>
      var rest := InstallAll(w, p, p.sources[k + 1..]);
      assert done + ([write] + rest.writes) == done + [write] + rest.writes;
  }

  /** The sources of one project, installed in turn. */
  method InstallSources(w: World, p: Project, env: Environment, ghost e: Entries, ghost before: seq<Write>)
    returns (error: Option<SyncError>)
    requires p.sources != [] && At(env, e, before)
    modifies env
    ensures error == InstallAll(w, p, p.sources).error
    ensures At(env, e, before + InstallAll(w, p, p.sources).writes)
  {
    ghost var goal := InstallAll(w, p, p.sources);
    ghost var done: seq<Write> := [];
    var noSupported := true;
    assert p.sources[0..] == p.sources && [] + goal.writes == goal.writes && before + [] == before;
    for k := 0 to |p.sources|
      invariant Ahead(goal, done, InstallAll(w, p, p.sources[k..]))
      invariant At(env, e, before + done)
      invariant noSupported <==> k == 0
    {
      var source := p.sources[k];
      if source.Editable? {
        assert done + [] == done;
        return None;
      }
      InstallStep(w, p, goal, done, k);
      match InstallOne(w, p, source)
      case Err(e) =>
        return Some(e);
      case Ok(write) =>
        env.Put(write.iri, write.version, write.checksum);
        ApplyConcat(e, before + done, [write]);
        assert before + done + [write] == before + (done + [write]);
        done := done + [write];
      noSupported := false;
    }
    assert done + [] == done;
    if noSupported {
      return Some(UnsupportedSources);
    }
    error := None;
  }

  lemma ProjectStep(w: World, e: Entries, ps: seq<Project>, i: nat, goal: Effect, done: seq<Write>)
    requires i < |ps| && Ahead(goal, done, SyncAll(w, Apply(e, done), ps[i..]))
    ensures var one := SyncProject(w, Apply(e, done), ps[i]);
            if one.error.Some? then goal == Effect(one.error, done + one.writes)
            else Ahead(goal, done + one.writes, SyncAll(w, Apply(e, done + one.writes), ps[i + 1..]))
  {
    assert ps[i..][1..] == ps[i + 1..];
    var one := SyncProject(w, Apply(e, done), ps[i]);
    ApplyConcat(e, done, one.writes);
    if one.error.None? {
      AheadOf(goal, done, one.writes, SyncAll(w, Apply(e, done + one.writes), ps[i + 1..]));
    }
  }

  /** `do_sync`, with its skips to the next project, against `SyncAll`. */
  method DoSync(w: World, lock: Lock, env: Environment) returns (error: Option<SyncError>)
    requires env.log == []
    modifies env
    ensures error == SyncAll(w, old(env.entries), lock.projects).error
    ensures At(env, old(env.entries), SyncAll(w, old(env.entries), lock.projects).writes)
  {
    ghost var e := env.entries;
    ghost var goal := SyncAll(w, e, lock.projects);
    assert lock.projects[0..] == lock.projects && [] + goal.writes == goal.writes;
    for i := 0 to |lock.projects|
      invariant At(env, e, env.log)
      invariant Ahead(goal, env.log, SyncAll(w, Apply(e, env.log), lock.projects[i..]))
    {
      var project := lock.projects[i];
      ghost var done := env.log;
      ProjectStep(w, e, lock.projects, i, goal, done);
      assert done + [] == done;
      var provision := CheckProvided(w, project);
      if provision.Provided? {
        continue;
      }
      if provision.WrongVersion? {
        return Some(InvalidProvidedVersion(provision.iri));
      }
      if project.sources == [] {
        return Some(MissingSource);
      }
      var scan := CheckInstalled(w, env.entries, project);
      if scan == Unreadable {
        return Some(EnvRead);
      }
      if scan == Found {
        continue;
      }
      var failed := InstallSources(w, project, env, e, done);
      if failed.Some? {
        return failed;
      }
    }
    assert env.log + [] == env.log;
    error := None;
  }

  // ---- every run ----

  /** A write the lock and the storages account for. */
  ghost predicate Legitimate(w: World, ps: seq<Project>, x: Write) {
    exists p, s | p in ps && s in p.sources ::
      && p.identifiers != [] && x.iri == p.identifiers[0] && x.version == p.version
      && w.storage(s).Holds?
      && if s.RemoteGit? then x.checksum == None
         else x.checksum == ToChecksum(s) == Some(w.storage(s).actual)
  }

  lemma {:induction false} InstallLegitimate(w: World, p: Project, sources: seq<Source>, x: Write)
    requires (forall s | s in sources :: s in p.sources) && x in InstallAll(w, p, sources).writes
    ensures Legitimate(w, [p], x)
  {
    var write := InstallOne(w, p, sources[0]).value;
    if x == write {
      assert p in [p] && sources[0] in p.sources;
    } else {
      InstallLegitimate(w, p, sources[1..], x);
    }
  }

  /**
   * In every run, successful or not, each write is at a project's first identifier and version,
   * with a checksum that is both listed in its sources and the storage's actual one, or with
   * none for git.
   */
  lemma {:induction false} WritesLegitimate(w: World, e: Entries, ps: seq<Project>, x: Write)
    requires x in SyncAll(w, e, ps).writes
    ensures Legitimate(w, ps, x)
    decreases |ps|
  {
    var first := SyncProject(w, e, ps[0]);
    if x in first.writes {
      InstallLegitimate(w, ps[0], ps[0].sources, x);
      var s :| s in ps[0].sources
        && ps[0].identifiers != [] && x.iri == ps[0].identifiers[0] && x.version == ps[0].version
        && w.storage(s).Holds?
        && if s.RemoteGit? then x.checksum == None
           else x.checksum == ToChecksum(s) == Some(w.storage(s).actual);
      assert ps[0] in ps;
    } else {
      WritesLegitimate(w, Apply(e, first.writes), ps[1..], x);
      assert forall p | p in ps[1..] :: p in ps;
    }
  }

  /** The last write to `key`, if any. */
  function LastWrite(writes: seq<Write>, key: (string, string)): Option<Write> {
    if writes == [] then None
    else
      match LastWrite(writes[1..], key)
      case Some(x) => Some(x)
      case None => if (writes[0].iri, writes[0].version) == key then Some(writes[0]) else None
  }

  lemma {:induction false} LastWriteIs(writes: seq<Write>, key: (string, string))
    ensures LastWrite(writes, key).None? <==> forall x | x in writes :: (x.iri, x.version) != key
    ensures LastWrite(writes, key).Some? ==>
              exists k | 0 <= k < |writes| ::
                && LastWrite(writes, key) == Some(writes[k]) && (writes[k].iri, writes[k].version) == key
                && forall j | k < j < |writes| :: (writes[j].iri, writes[j].version) != key
  {
    if writes != [] {
      var tail := writes[1..];
      LastWriteIs(tail, key);
      assert forall j | 0 < j < |writes| :: writes[j] == tail[j - 1];
      if LastWrite(tail, key).Some? {
        var k :| 0 <= k < |tail| && LastWrite(tail, key) == Some(tail[k])
          && (tail[k].iri, tail[k].version) == key
          && forall j | k < j < |tail| :: (tail[j].iri, tail[j].version) != key;
        assert writes[k + 1] == tail[k];
      } else {
        assert forall j | 0 < j < |writes| :: writes[j] in tail;
      }
    }
  }

  /** What is not written keeps its entry; what is written has the last value written there. */
  lemma {:induction false} ApplyElsewhere(e: Entries, writes: seq<Write>, key: (string, string))
    ensures LastWrite(writes, key).None? ==>
              (key in Apply(e, writes) <==> key in e) && (key in e ==> Apply(e, writes)[key] == e[key])
    ensures LastWrite(writes, key).Some? ==>
              key in Apply(e, writes) && Apply(e, writes)[key] == LastWrite(writes, key).value.checksum
    decreases |writes|
  {
    if writes != [] {
      ApplyElsewhere(e[(writes[0].iri, writes[0].version) := writes[0].checksum], writes[1..], key);
    }
  }

  /** No write at a key leaves it as it was. */
  lemma ApplyKeeps(e: Entries, writes: seq<Write>, key: (string, string))
    requires forall x | x in writes :: (x.iri, x.version) != key
    ensures (key in Apply(e, writes) <==> key in e) && (key in e ==> Apply(e, writes)[key] == e[key])
  {
    LastWriteIs(writes, key);
    ApplyElsewhere(e, writes, key);
  }

  // ---- successful runs ----

  /** Some identifier of `p` is installed with the checksum of one of its sources. */
  ghost predicate Matches(e: Entries, p: Project) {
    exists id, s | id in p.identifiers && s in p.sources ::
      ToChecksum(s).Some? && Verified(e, id, p.version, ToChecksum(s).value) == Match
  }

  /** Nothing is left to do for `p`. */
  ghost predicate Settled(w: World, e: Entries, p: Project) {
    match FirstProvided(w, p.identifiers, p.version)
    case Provided => true
    case WrongVersion(_) => false
    case NotProvided => p.sources != [] && (Matches(e, p) || p.sources[0].Editable?)
  }

  /** The last source that is installed: sources after an editable one are not. */
  function LastInstalled(sources: seq<Source>): Option<Source> {
    if sources == [] || sources[0].Editable? then None
    else
      match LastInstalled(sources[1..])
      case None => Some(sources[0])
      case Some(s) => Some(s)
  }

  /** Git installs record no checksum, so what comes last must not be git. */
  predicate EndsVerifiable(p: Project) {
    match LastInstalled(p.sources) case None => true case Some(s) => !s.RemoteGit?
  }

  lemma {:induction false} ScanSourcesFinds(w: World, e: Entries, iri: string, version: string, sources: seq<Source>)
    ensures ScanSources(w, e, iri, version, sources) == Found ==>
              exists s | s in sources :: ToChecksum(s).Some? && Verified(e, iri, version, ToChecksum(s).value) == Match
    ensures ScanSources(w, e, iri, version, sources) == Absent ==>
              forall s | s in sources :: ToChecksum(s).Some? ==> Verified(e, iri, version, ToChecksum(s).value) != Match
  {
    if sources != [] {
      ScanSourcesFinds(w, e, iri, version, sources[1..]);
      assert forall s | s in sources :: s == sources[0] || s in sources[1..];
    }
  }

  lemma {:induction false} ScanIdsFinds(w: World, e: Entries, ids: seq<string>, p: Project)
    requires forall id | id in ids :: id in p.identifiers
    ensures ScanIds(w, e, ids, p.version, p.sources) == Found ==> Matches(e, p)
    ensures ScanIds(w, e, ids, p.version, p.sources) == Absent ==>
              forall id, s | id in ids && s in p.sources ::
                ToChecksum(s).Some? ==> Verified(e, id, p.version, ToChecksum(s).value) != Match
  {
    if ids != [] {
      ScanSourcesFinds(w, e, ids[0], p.version, p.sources);
      ScanIdsFinds(w, e, ids[1..], p);
      if ScanSources(w, e, ids[0], p.version, p.sources) == Found {
        var s :| s in p.sources && ToChecksum(s).Some? && Verified(e, ids[0], p.version, ToChecksum(s).value) == Match;
        assert ids[0] in p.identifiers;
      }
      assert forall id | id in ids :: id == ids[0] || id in ids[1..];
    }
  }

  /** After a successful install the entry has the checksum of the last source. */
  lemma {:induction false} InstallLast(w: World, e: Entries, p: Project, sources: seq<Source>)
    requires InstallAll(w, p, sources).error.None? && LastInstalled(sources).Some?
    ensures p.identifiers != [] && LastInstalled(sources).value in sources && !LastInstalled(sources).value.Editable?
    ensures var e' := Apply(e, InstallAll(w, p, sources).writes);
            var key := (p.identifiers[0], p.version);
            key in e' && e'[key] == ToChecksum(LastInstalled(sources).value)
    decreases |sources|
  {
    var write := InstallOne(w, p, sources[0]).value;
    var e1 := e[(write.iri, write.version) := write.checksum];
    var rest := InstallAll(w, p, sources[1..]);
    assert ([write] + rest.writes)[1..] == rest.writes;
    if LastInstalled(sources[1..]).Some? {
      InstallLast(w, e1, p, sources[1..]);
    } else {
      assert rest.writes == [];
    }
  }

  lemma VerifiedIsEqual(e: Entries, iri: string, version: string, c: Checksum)
    ensures Verified(e, iri, version, c) == Match <==> (iri, version) in e && e[(iri, version)] == Some(c)
  {
  }

  lemma ProjectSettles(w: World, e: Entries, p: Project)
    requires EndsVerifiable(p) && SyncProject(w, e, p).error.None?
    ensures Settled(w, Apply(e, SyncProject(w, e, p).writes), p)
  {
    if FirstProvided(w, p.identifiers, p.version).NotProvided? {
      ScanIdsFinds(w, e, p.identifiers, p);
      if ScanIds(w, e, p.identifiers, p.version, p.sources) == Absent && !p.sources[0].Editable? {
        InstallLast(w, e, p, p.sources);
        var s := LastInstalled(p.sources).value;
        VerifiedIsEqual(Apply(e, InstallAll(w, p, p.sources).writes), p.identifiers[0], p.version, ToChecksum(s).value);
        assert p.identifiers[0] in p.identifiers && s in p.sources;
      }
    }
  }

  /** No project leads with an identifier that another one has. */
  ghost predicate LeadsApart(ps: seq<Project>) {
    forall i, j | 0 <= i < |ps| && 0 <= j < |ps| && i != j ::
      ps[i].identifiers != [] ==> ps[i].identifiers[0] !in ps[j].identifiers
  }

  /** `p` does not have what any of `qs` leads with. */
  ghost predicate Clear(p: Project, qs: seq<Project>) {
    forall q | q in qs :: q.identifiers != [] ==> q.identifiers[0] !in p.identifiers
  }

  lemma HeadApart(ps: seq<Project>)
    requires LeadsApart(ps) && ps != []
    ensures LeadsApart(ps[1..]) && Clear(ps[0], ps[1..])
    ensures forall q | q in ps[1..] :: Clear(q, [ps[0]])
  {
    forall q | q in ps[1..]
      ensures q.identifiers != [] ==> q.identifiers[0] !in ps[0].identifiers
      ensures ps[0].identifiers != [] ==> ps[0].identifiers[0] !in q.identifiers
    {
      var j :| 0 <= j < |ps[1..]| && ps[1..][j] == q;
      assert ps[j + 1] == q;
    }
  }

  /** Writes for other projects leave a settled project settled. */
  lemma SettledStays(w: World, e: Entries, p: Project, ps: seq<Project>, writes: seq<Write>)
    requires Settled(w, e, p)
    requires forall x | x in writes :: Legitimate(w, ps, x)
    requires Clear(p, ps)
    ensures Settled(w, Apply(e, writes), p)
  {
    var e' := Apply(e, writes);
    if FirstProvided(w, p.identifiers, p.version).NotProvided? && Matches(e, p) {
      var id, s :| id in p.identifiers && s in p.sources
        && ToChecksum(s).Some? && Verified(e, id, p.version, ToChecksum(s).value) == Match;
      forall x | x in writes
        ensures (x.iri, x.version) != (id, p.version)
      {
        var q, t :| q in ps && t in q.sources && q.identifiers != [] && x.iri == q.identifiers[0];
      }
      ApplyKeeps(e, writes, (id, p.version));
      VerifiedIsEqual(e, id, p.version, ToChecksum(s).value);
      VerifiedIsEqual(e', id, p.version, ToChecksum(s).value);
    }
  }

  lemma {:induction false} RunSettles(w: World, e: Entries, ps: seq<Project>)
    requires LeadsApart(ps) && (forall p | p in ps :: EndsVerifiable(p)) && SyncAll(w, e, ps).error.None?
    ensures forall p | p in ps :: Settled(w, Apply(e, SyncAll(w, e, ps).writes), p)
    decreases |ps|
  {
    if ps != [] {
      var p, tail := ps[0], ps[1..];
      var first := SyncProject(w, e, p);
      var e1 := Apply(e, first.writes);
      var rest := SyncAll(w, e1, tail);
      assert p in ps && forall q | q in tail :: q in ps;
      ProjectSettles(w, e, p);
      RunSettles(w, e1, tail);
      ApplyConcat(e, first.writes, rest.writes);
      forall x | x in rest.writes
        ensures Legitimate(w, tail, x)
      {
        WritesLegitimate(w, e1, tail, x);
      }
      HeadApart(ps);
      SettledStays(w, e1, p, tail, rest.writes);
      assert forall q | q in ps :: q == p || q in tail;
    }
  }

  /**
   * After a successful run on a lock where none leads with another's identifier, none of whose projects ends in
   * a git source, every project that is neither provided nor led by an editable source
   * verifies as `Match` under one of its identifiers.
   */
  lemma SyncInstallsEverything(w: World, e: Entries, ps: seq<Project>, p: Project)
    requires LeadsApart(ps) && (forall q | q in ps :: EndsVerifiable(q)) && SyncAll(w, e, ps).error.None?
    requires p in ps && !FirstProvided(w, p.identifiers, p.version).Provided?
    requires p.sources == [] || !p.sources[0].Editable?
    ensures Matches(Apply(e, SyncAll(w, e, ps).writes), p)
  {
    RunSettles(w, e, ps);
  }

  /** On an environment where every project is settled, a run writes nothing, whatever the storages hold by then. */
  lemma {:induction false} SettledRunWritesNothing(w: World, w2: World, e: Entries, ps: seq<Project>)
    requires w2.canonical == w.canonical && w2.provided == w.provided
    requires forall p | p in ps :: Settled(w, e, p)
    ensures SyncAll(w2, e, ps).writes == []
    ensures SyncAll(w2, e, ps).error.None? || SyncAll(w2, e, ps).error == Some(EnvRead)
    decreases |ps|
  {
    if ps != [] {
      var p := ps[0];
      assert p in ps && forall q | q in ps[1..] :: q in ps;
      SameProvision(w, w2, p.identifiers, p.version);
      ScanIdsFinds(w2, e, p.identifiers, p);
      SettledRunWritesNothing(w, w2, e, ps[1..]);
      assert SyncProject(w2, e, p).writes == [];
      assert Apply(e, []) == e;
    }
  }

  lemma {:induction false} SameProvision(w: World, w2: World, ids: seq<string>, version: string)
    requires w2.canonical == w.canonical && w2.provided == w.provided
    ensures FirstProvided(w2, ids, version) == FirstProvided(w, ids, version)
  {
    if ids != [] {
      SameProvision(w, w2, ids[1..], version);
    }
  }

  /** A second sync after a successful one performs no writes. */
  lemma SecondSyncWritesNothing(w: World, w2: World, e: Entries, ps: seq<Project>)
    requires LeadsApart(ps) && (forall p | p in ps :: EndsVerifiable(p)) && SyncAll(w, e, ps).error.None?
    requires w2.canonical == w.canonical && w2.provided == w.provided
    ensures SyncAll(w2, Apply(e, SyncAll(w, e, ps).writes), ps).writes == []
  {
    RunSettles(w, e, ps);
    SettledRunWritesNothing(w, w2, Apply(e, SyncAll(w, e, ps).writes), ps);
  }

  /** What could be read once without a match can be read again. */
  lemma {:induction false} ScanReadable(w: World, e: Entries, e2: Entries, ids: seq<string>, version: string,
      sources: seq<Source>)
    requires ScanIds(w, e, ids, version, sources) == Absent
    ensures ScanIds(w, e2, ids, version, sources) != Unreadable
  {
    if ids != [] {
      SourcesReadable(w, e, e2, ids[0], version, sources);
      ScanReadable(w, e, e2, ids[1..], version, sources);
    }
  }

  lemma {:induction false} SourcesReadable(w: World, e: Entries, e2: Entries, iri: string, version: string,
      sources: seq<Source>)
    requires ScanSources(w, e, iri, version, sources) == Absent
    ensures ScanSources(w, e2, iri, version, sources) != Unreadable
  {
    if sources != [] {
      SourcesReadable(w, e, e2, iri, version, sources[1..]);
    }
  }

  /** All writes for a project go to one place. */
  lemma {:induction false} InstallKey(w: World, p: Project, sources: seq<Source>, x: Write)
    requires x in InstallAll(w, p, sources).writes
    ensures p.identifiers != [] && x.iri == p.identifiers[0] && x.version == p.version
  {
    if x != InstallOne(w, p, sources[0]).value {
      InstallKey(w, p, sources[1..], x);
    }
  }

  /** Where the last install was from git, nothing matches afterwards that did not match before. */
  lemma GitLeavesNoMatch(w: World, e: Entries, p: Project)
    requires InstallAll(w, p, p.sources).error.None? && !EndsVerifiable(p) && !Matches(e, p)
    ensures !Matches(Apply(e, InstallAll(w, p, p.sources).writes), p)
  {
    var writes := InstallAll(w, p, p.sources).writes;
    var e' := Apply(e, writes);
    InstallLast(w, e, p, p.sources);
    forall id, s | id in p.identifiers && s in p.sources && ToChecksum(s).Some?
      ensures Verified(e', id, p.version, ToChecksum(s).value) != Match
    {
      VerifiedIsEqual(e', id, p.version, ToChecksum(s).value);
      VerifiedIsEqual(e, id, p.version, ToChecksum(s).value);
      if id != p.identifiers[0] {
        forall x | x in writes
          ensures (x.iri, x.version) != (id, p.version)
        {
          InstallKey(w, p, p.sources, x);
        }
        ApplyKeeps(e, writes, (id, p.version));
      }
    }
  }

  /** A project that was just installed is installed again by the next run exactly if its last source is git. */
  lemma WrittenAgainIff(w: World, e: Entries, p: Project)
    requires SyncProject(w, e, p).error.None? && SyncProject(w, e, p).writes != []
    ensures SyncProject(w, Apply(e, SyncProject(w, e, p).writes), p)
         == if EndsVerifiable(p) then Effect(None, []) else SyncProject(w, e, p)
  {
    var e' := Apply(e, SyncProject(w, e, p).writes);
    ScanReadable(w, e, e', p.identifiers, p.version, p.sources);
    ScanIdsFinds(w, e', p.identifiers, p);
    if EndsVerifiable(p) {
      ProjectSettles(w, e, p);
    } else {
      ScanIdsFinds(w, e, p.identifiers, p);
      GitLeavesNoMatch(w, e, p);
    }
  }

  /** Both have the same entries for `p`. */
  ghost predicate Agree(e: Entries, e2: Entries, p: Project) {
    forall id | id in p.identifiers ::
      && ((id, p.version) in e <==> (id, p.version) in e2)
      && ((id, p.version) in e ==> e[(id, p.version)] == e2[(id, p.version)])
  }

  lemma {:induction false} ScanSourcesAgree(w: World, e: Entries, e2: Entries, id: string, p: Project,
      sources: seq<Source>)
    requires Agree(e, e2, p) && id in p.identifiers
    ensures ScanSources(w, e, id, p.version, sources) == ScanSources(w, e2, id, p.version, sources)
  {
    if sources != [] {
      ScanSourcesAgree(w, e, e2, id, p, sources[1..]);
    }
  }

  lemma {:induction false} ScanIdsAgree(w: World, e: Entries, e2: Entries, ids: seq<string>, p: Project)
    requires Agree(e, e2, p) && forall id | id in ids :: id in p.identifiers
    ensures ScanIds(w, e, ids, p.version, p.sources) == ScanIds(w, e2, ids, p.version, p.sources)
  {
    if ids != [] {
      ScanSourcesAgree(w, e, e2, ids[0], p, p.sources);
      ScanIdsAgree(w, e, e2, ids[1..], p);
    }
  }

  /** Writes at first identifiers of projects `qs` do not touch the entries of a project without these. */
  lemma WritesElsewhere(w: World, e: Entries, p: Project, qs: seq<Project>, writes: seq<Write>)
    requires forall x | x in writes :: Legitimate(w, qs, x)
    requires Clear(p, qs)
    ensures Agree(e, Apply(e, writes), p)
  {
    var e' := Apply(e, writes);
    forall id | id in p.identifiers
      ensures (id, p.version) in e <==> (id, p.version) in e'
      ensures (id, p.version) in e ==> e[(id, p.version)] == e'[(id, p.version)]
    {
      forall x | x in writes
        ensures (x.iri, x.version) != (id, p.version)
      {
        var q, t :| q in qs && t in q.sources && q.identifiers != [] && x.iri == q.identifiers[0];
      }
      ApplyKeeps(e, writes, (id, p.version));
    }
  }

  /** What a run writes for the projects it installs whose last source is git. */
  function GitWrites(w: World, e: Entries, ps: seq<Project>): seq<Write>
    decreases |ps|
  {
    if ps == [] then []
    else
      var first := SyncProject(w, e, ps[0]);
      (if EndsVerifiable(ps[0]) then [] else first.writes) + GitWrites(w, Apply(e, first.writes), ps[1..])
  }

  /** A project's second turn, in any environment that still has what its first turn left. */
  lemma SecondTurn(w: World, e: Entries, e2: Entries, p: Project)
    requires SyncProject(w, e, p).error.None? && Agree(Apply(e, SyncProject(w, e, p).writes), e2, p)
    ensures SyncProject(w, e2, p) == Effect(None, if EndsVerifiable(p) then [] else SyncProject(w, e, p).writes)
  {
    var first := SyncProject(w, e, p);
    ScanIdsAgree(w, Apply(e, first.writes), e2, p.identifiers, p);
    if first.writes != [] {
      WrittenAgainIff(w, e, p);
    }
  }

  lemma {:induction false} SecondRun(w: World, e: Entries, e2: Entries, ps: seq<Project>)
    requires LeadsApart(ps) && SyncAll(w, e, ps).error.None?
    requires forall p | p in ps :: Agree(Apply(e, SyncAll(w, e, ps).writes), e2, p)
    ensures SyncAll(w, e2, ps) == Effect(None, GitWrites(w, e, ps))
    decreases |ps|
  {
    if ps != [] {
      var p, tail := ps[0], ps[1..];
      var first := SyncProject(w, e, p);
      var e1 := Apply(e, first.writes);
      var rest := SyncAll(w, e1, tail);
      var again := if EndsVerifiable(p) then [] else first.writes;
      assert p in ps && forall q | q in tail :: q in ps;
      HeadApart(ps);
      ApplyConcat(e, first.writes, rest.writes);
      FirstTurnStays(w, e1, p, tail);
      SecondTurn(w, e, e2, p);
      forall q | q in tail
        ensures Agree(Apply(e1, rest.writes), Apply(e2, again), q)
      {
        TurnElsewhere(w, e, e2, p, q, again);
      }
      SecondRun(w, e1, Apply(e2, again), tail);
    }
  }

  /** What is left for `p` is still there after the run went on. */
  lemma FirstTurnStays(w: World, e: Entries, p: Project, tail: seq<Project>)
    requires Clear(p, tail)
    ensures Agree(e, Apply(e, SyncAll(w, e, tail).writes), p)
  {
    forall x | x in SyncAll(w, e, tail).writes
      ensures Legitimate(w, tail, x)
    {
      WritesLegitimate(w, e, tail, x);
    }
    WritesElsewhere(w, e, p, tail, SyncAll(w, e, tail).writes);
  }

  lemma TurnElsewhere(w: World, e: Entries, e2: Entries, p: Project, q: Project, again: seq<Write>)
    requires again == [] || again == SyncProject(w, e, p).writes
    requires Clear(q, [p])
    ensures Agree(e2, Apply(e2, again), q)
  {
    forall x | x in again
      ensures Legitimate(w, [p], x)
    {
      InstallLegitimate(w, p, p.sources, x);
    }
    WritesElsewhere(w, e2, q, [p], again);
  }

  /**
   * After a successful run on a lock where none leads with another's identifier, a second run succeeds and
   * writes exactly what the first one wrote for the projects whose last source is git.
   */
  lemma SecondSyncWritesGit(w: World, e: Entries, ps: seq<Project>)
    requires LeadsApart(ps) && SyncAll(w, e, ps).error.None?
    ensures SyncAll(w, Apply(e, SyncAll(w, e, ps).writes), ps) == Effect(None, GitWrites(w, e, ps))
  {
    SecondRun(w, e, Apply(e, SyncAll(w, e, ps).writes), ps);
  }
}
