/** When a sync run succeeds, what it writes and which error it returns (core/src/commands/sync.rs). */
module SyncOutcome {
  import opened Common
  import opened Lockfile
  import opened Sync

  /** `c` is the checksum the source lists: of the project for sources, of the archive for archives. */
  predicate Lists(s: Source, c: Checksum) {
    match s
    case Editable(_) => false
    case LocalSrc(_, digest) => c == ProjectChecksum(digest)
    case LocalKpar(_, _, digest) => c == KparChecksum(digest)
    case RemoteKpar(_, _, digest) => c == KparChecksum(digest)
    case IndexKpar(_, _, digest) => c == KparChecksum(digest)
    case RemoteSrc(_, digest) => c == ProjectChecksum(digest)
    case RemoteGit(_) => false
  }

  lemma ListsIff(s: Source, c: Checksum)
    ensures Lists(s, c) <==> ToChecksum(s) == Some(c)
    ensures ToChecksum(s).None? <==> s.Editable? || s.RemoteGit?
  {
  }

  // ---- provided ----

  /** The first identifier that is provided is at `k`. */
  predicate ProvidedAt(w: World, p: Project, k: nat) {
    && k < |p.identifiers| && w.canonical(p.identifiers[k]) in w.provided
    && forall j | 0 <= j < k :: w.canonical(p.identifiers[j]) !in w.provided
  }

  predicate NotProvidedAtAll(w: World, p: Project) {
    forall j | 0 <= j < |p.identifiers| :: w.canonical(p.identifiers[j]) !in w.provided
  }

  predicate ProvidesVersion(w: World, p: Project, k: nat)
    requires ProvidedAt(w, p, k)
  {
    p.version in w.provided[w.canonical(p.identifiers[k])]
  }

  // ---- installed ----

  /** Under `id` the environment has the checksum one of the sources lists. */
  ghost predicate MatchesAt(e: Entries, p: Project, id: string) {
    exists s, c | s in p.sources && Lists(s, c) :: (id, p.version) in e && e[(id, p.version)] == Some(c)
  }

  /** The environment has to be asked about `id` and cannot be. */
  ghost predicate BlockedAt(w: World, p: Project, id: string) {
    w.unreadable(id, p.version) && exists s | s in p.sources :: !s.Editable? && !s.RemoteGit?
  }

  /** Some identifier matches, and it can be asked about it and about all before it. */
  ghost predicate FoundBy(w: World, e: Entries, p: Project, ids: seq<string>) {
    exists i | 0 <= i < |ids| :: MatchesAt(e, p, ids[i]) && forall j | 0 <= j <= i :: !BlockedAt(w, p, ids[j])
  }

  /** It cannot be asked about some identifier, and none before it matches. */
  ghost predicate BlockedBy(w: World, e: Entries, p: Project, ids: seq<string>) {
    exists i | 0 <= i < |ids| :: BlockedAt(w, p, ids[i]) && forall j | 0 <= j < i :: !MatchesAt(e, p, ids[j])
  }

  lemma {:induction false} ScanSourcesIff(w: World, e: Entries, p: Project, id: string, sources: seq<Source>)
    ensures var scan := ScanSources(w, e, id, p.version, sources);
            && (scan == Unreadable <==> w.unreadable(id, p.version) && exists s | s in sources :: ToChecksum(s).Some?)
            && (scan == Found <==>
                  && !w.unreadable(id, p.version) && (id, p.version) in e
                  && exists s | s in sources :: ToChecksum(s).Some? && e[(id, p.version)] == ToChecksum(s))
  {
    if sources != [] {
      var head, tail := sources[0], sources[1..];
      ScanSourcesIff(w, e, p, id, tail);
      assert forall s | s in sources :: s == head || s in tail;
      assert head in sources && forall s | s in tail :: s in sources;
      if ToChecksum(head).Some? {
        VerifiedIsEqual(e, id, p.version, ToChecksum(head).value);
      }
    }
  }

  lemma ScanAtIff(w: World, e: Entries, p: Project, id: string)
    ensures var scan := ScanSources(w, e, id, p.version, p.sources);
            && (scan == Unreadable <==> BlockedAt(w, p, id))
            && (scan == Found <==> !BlockedAt(w, p, id) && MatchesAt(e, p, id))
  {
    ScanSourcesIff(w, e, p, id, p.sources);
    forall s
      ensures ToChecksum(s).None? <==> s.Editable? || s.RemoteGit?
      ensures forall c :: Lists(s, c) <==> ToChecksum(s) == Some(c)
    {
      forall c {
        ListsIff(s, c);
      }
      ListsIff(s, ProjectChecksum(""));
    }
    if (id, p.version) in e && exists s | s in p.sources :: ToChecksum(s).Some? && e[(id, p.version)] == ToChecksum(s) {
      var s :| s in p.sources && ToChecksum(s).Some? && e[(id, p.version)] == ToChecksum(s);
      assert Lists(s, ToChecksum(s).value);
    }
  }

  lemma FoundUpTo(w: World, e: Entries, p: Project, ids: seq<string>)
    requires ids != []
    ensures FoundBy(w, e, p, ids) <==>
              !BlockedAt(w, p, ids[0]) && (MatchesAt(e, p, ids[0]) || FoundBy(w, e, p, ids[1..]))
  {
    var tail := ids[1..];
    if FoundBy(w, e, p, ids) {
      var i :| 0 <= i < |ids| && MatchesAt(e, p, ids[i]) && forall j | 0 <= j <= i :: !BlockedAt(w, p, ids[j]);
      if i > 0 {
        assert tail[i - 1] == ids[i] && forall j | 0 <= j <= i - 1 :: tail[j] == ids[j + 1];
      }
    }
    if !BlockedAt(w, p, ids[0]) && FoundBy(w, e, p, tail) {
      var i :| 0 <= i < |tail| && MatchesAt(e, p, tail[i]) && forall j | 0 <= j <= i :: !BlockedAt(w, p, tail[j]);
      assert ids[i + 1] == tail[i] && forall j | 0 < j <= i + 1 :: ids[j] == tail[j - 1];
    }
  }

  lemma BlockedUpTo(w: World, e: Entries, p: Project, ids: seq<string>)
    requires ids != []
    ensures BlockedBy(w, e, p, ids) <==>
              BlockedAt(w, p, ids[0]) || (!MatchesAt(e, p, ids[0]) && BlockedBy(w, e, p, ids[1..]))
  {
    var tail := ids[1..];
    if BlockedBy(w, e, p, ids) {
      var i :| 0 <= i < |ids| && BlockedAt(w, p, ids[i]) && forall j | 0 <= j < i :: !MatchesAt(e, p, ids[j]);
      if i > 0 {
        assert tail[i - 1] == ids[i] && forall j | 0 <= j < i - 1 :: tail[j] == ids[j + 1];
      }
    }
    if !MatchesAt(e, p, ids[0]) && BlockedBy(w, e, p, tail) {
      var i :| 0 <= i < |tail| && BlockedAt(w, p, tail[i]) && forall j | 0 <= j < i :: !MatchesAt(e, p, tail[j]);
      assert ids[i + 1] == tail[i] && forall j | 0 < j < i + 1 :: ids[j] == tail[j - 1];
    }
  }

  /** The scan over identifiers and sources, exactly. */
  lemma {:induction false} ScanIff(w: World, e: Entries, p: Project, ids: seq<string>)
    ensures var scan := ScanIds(w, e, ids, p.version, p.sources);
            (scan == Found <==> FoundBy(w, e, p, ids)) && (scan == Unreadable <==> BlockedBy(w, e, p, ids))
  {
    if ids != [] {
      ScanAtIff(w, e, p, ids[0]);
      ScanIff(w, e, p, ids[1..]);
      FoundUpTo(w, e, p, ids);
      BlockedUpTo(w, e, p, ids);
    }
  }

  // ---- installing ----

  /** The source can be installed: its storage holds what it lists, or it is git, and the install does not fail. */
  predicate Installable(w: World, p: Project, s: Source) {
    && p.identifiers != [] && w.storage(s).Holds? && !w.installFails(p.identifiers[0], p.version, s)
    && (s.RemoteGit? || Lists(s, w.storage(s).actual))
  }

  /** What is recorded for it. */
  predicate WritesFor(w: World, p: Project, s: Source, x: Write) {
    && p.identifiers != [] && x.iri == p.identifiers[0] && x.version == p.version
    && if s.RemoteGit? then x.checksum == None else w.storage(s).Holds? && x.checksum == Some(w.storage(s).actual)
  }

  /** `error` is why the source cannot be installed. */
  predicate Explains(w: World, p: Project, s: Source, error: SyncError) {
    match error
    case MissingIri(t) => t == s && p.identifiers == []
    case MissingStorage(t) => t == s && p.identifiers != [] && w.storage(s) == NoHandler
    case InvalidRemoteSource(t) => t == s && p.identifiers != [] && w.storage(s) == CreateFailed && !s.RemoteGit?
    case GitDownload(t) => t == s && p.identifiers != [] && w.storage(s) == CreateFailed && s.RemoteGit?
    case ProjectRead(t) => t == s && p.identifiers != [] && w.storage(s) == ReadFailed && !s.RemoteGit?
    case BadChecksum(iri, expected, actual) =>
      && p.identifiers != [] && iri == p.identifiers[0] && !s.RemoteGit?
      && w.storage(s) == Holds(actual) && Lists(s, expected) && expected != actual
    case InstallFail(iri) =>
      && p.identifiers != [] && iri == p.identifiers[0]
      && if s.RemoteGit? then
           w.storage(s) == ReadFailed || (w.storage(s).Holds? && w.installFails(iri, p.version, s))
         else w.storage(s).Holds? && Lists(s, w.storage(s).actual) && w.installFails(iri, p.version, s)
    case _ => false
  }

  lemma InstallOneIs(w: World, p: Project, s: Source)
    requires !s.Editable?
    ensures InstallOne(w, p, s).Ok? <==> Installable(w, p, s)
    ensures match InstallOne(w, p, s)
            case Ok(x) => WritesFor(w, p, s, x)
            case Err(error) => Explains(w, p, s, error)
  {
    if w.storage(s).Holds? {
      ListsIff(s, w.storage(s).actual);
    }
    ListsIff(s, ProjectChecksum(""));
    if ToChecksum(s).Some? {
      ListsIff(s, ToChecksum(s).value);
    }
  }

  /** The sources that are tried: those before the first editable one. */
  function Tried(sources: seq<Source>): (r: seq<Source>)
    ensures r <= sources && forall s | s in r :: !s.Editable?
    ensures |r| < |sources| ==> sources[|r|].Editable?
  {
    if sources == [] || sources[0].Editable? then [] else [sources[0]] + Tried(sources[1..])
  }

  /** The first `n` tried sources are installed and recorded in turn. */
  ghost predicate WritesFirst(w: World, p: Project, tried: seq<Source>, n: nat, writes: seq<Write>) {
    && n == |writes| <= |tried|
    && forall k | 0 <= k < n :: Installable(w, p, tried[k]) && WritesFor(w, p, tried[k], writes[k])
  }

  /** What installing the tried sources comes to. */
  ghost predicate InstallOutcome(w: World, p: Project, tried: seq<Source>, r: Effect) {
    if r.error.None? then WritesFirst(w, p, tried, |tried|, r.writes)
    else
      && |r.writes| < |tried| && WritesFirst(w, p, tried, |r.writes|, r.writes)
      && !Installable(w, p, tried[|r.writes|]) && Explains(w, p, tried[|r.writes|], r.error.value)
  }

  lemma {:induction false} InstallAllIs(w: World, p: Project, sources: seq<Source>)
    ensures InstallOutcome(w, p, Tried(sources), InstallAll(w, p, sources))
  {
    if sources != [] && !sources[0].Editable? {
      InstallOneIs(w, p, sources[0]);
      InstallAllIs(w, p, sources[1..]);
      var tried, rest := Tried(sources), Tried(sources[1..]);
      assert forall k | 0 < k < |tried| :: tried[k] == rest[k - 1];
      if InstallOne(w, p, sources[0]).Ok? {
        var r, tail := InstallAll(w, p, sources), InstallAll(w, p, sources[1..]);
        assert forall k | 0 < k < |r.writes| :: r.writes[k] == tail.writes[k - 1];
      }
    }
  }

  // ---- one project ----

  /** A project's turn has no error. */
  ghost predicate TurnSucceeds(w: World, e: Entries, p: Project) {
    if NotProvidedAtAll(w, p) then
      && p.sources != [] && !BlockedBy(w, e, p, p.identifiers)
      && (FoundBy(w, e, p, p.identifiers) || forall s | s in Tried(p.sources) :: Installable(w, p, s))
    else exists k: nat :: ProvidedAt(w, p, k) && ProvidesVersion(w, p, k)
  }

  /** `error` is why it has one. */
  ghost predicate TurnFailsWith(w: World, e: Entries, p: Project, error: SyncError) {
    if !NotProvidedAtAll(w, p) then
      exists k: nat ::
        ProvidedAt(w, p, k) && !ProvidesVersion(w, p, k) && error == InvalidProvidedVersion(p.identifiers[k])
    else if p.sources == [] then error == MissingSource
    else if BlockedBy(w, e, p, p.identifiers) then error == EnvRead
    else
      && !FoundBy(w, e, p, p.identifiers)
      && exists k | 0 <= k < |Tried(p.sources)| ::
           && (forall j | 0 <= j < k :: Installable(w, p, Tried(p.sources)[j]))
           && !Installable(w, p, Tried(p.sources)[k]) && Explains(w, p, Tried(p.sources)[k], error)
  }

  lemma ProvidedIff(w: World, p: Project)
    ensures var r := FirstProvided(w, p.identifiers, p.version);
            && (r.NotProvided? <==> NotProvidedAtAll(w, p))
            && (r.Provided? <==> exists k: nat :: ProvidedAt(w, p, k) && ProvidesVersion(w, p, k))
            && forall iri :: r == WrongVersion(iri) <==>
                 exists k: nat :: ProvidedAt(w, p, k) && !ProvidesVersion(w, p, k) && iri == p.identifiers[k]
  {
    var ids := p.identifiers;
    FirstProvidedIs(w, ids, p.version);
    assert NotProvidedAtAll(w, p) <==> forall id | id in ids :: w.canonical(id) !in w.provided;
    forall j: nat, k: nat | ProvidedAt(w, p, j) && ProvidedAt(w, p, k)
      ensures j == k
    {
      assert !(j < k) && !(k < j);
    }
    if !FirstProvided(w, ids, p.version).NotProvided? {
      var k :| 0 <= k < |ids| && (forall j | 0 <= j < k :: w.canonical(ids[j]) !in w.provided)
        && w.canonical(ids[k]) in w.provided && FirstProvided(w, ids, p.version) ==
          if p.version in w.provided[w.canonical(ids[k])] then Provided else WrongVersion(ids[k]);
      assert ProvidedAt(w, p, k);
    }
  }

  lemma InstallFails(w: World, p: Project, r: Effect)
    requires InstallOutcome(w, p, Tried(p.sources), r)
    ensures r.error.None? <==> forall s | s in Tried(p.sources) :: Installable(w, p, s)
  {
    var tried := Tried(p.sources);
    if r.error.Some? {
      assert tried[|r.writes|] in tried;
    }
  }

  /**
   * A project's turn, exactly: it has no error if and only if the project is provided at its
   * version, or has sources, can be looked up and is found or has only sources that can be
   * installed; otherwise the error is the true one, of the first obstacle.
   */
  lemma TurnIs(w: World, e: Entries, p: Project)
    ensures SyncProject(w, e, p).error.None? <==> TurnSucceeds(w, e, p)
    ensures SyncProject(w, e, p).error.Some? ==> TurnFailsWith(w, e, p, SyncProject(w, e, p).error.value)
  {
    ProvidedIff(w, p);
    ScanIff(w, e, p, p.identifiers);
    InstallAllIs(w, p, p.sources);
    InstallFails(w, p, InstallAll(w, p, p.sources));
  }

  /** What it writes: nothing, or one entry for each tried source in turn, up to the one that fails. */
  lemma TurnWrites(w: World, e: Entries, p: Project)
    ensures var r := SyncProject(w, e, p);
            if NotProvidedAtAll(w, p) && p.sources != []
               && !BlockedBy(w, e, p, p.identifiers) && !FoundBy(w, e, p, p.identifiers)
            then InstallOutcome(w, p, Tried(p.sources), r)
            else r.writes == []
  {
    ProvidedIff(w, p);
    ScanIff(w, e, p, p.identifiers);
    InstallAllIs(w, p, p.sources);
  }

  // ---- the run ----

  /** The environment when the turn of project `i` comes. */
  function Before(w: World, e: Entries, ps: seq<Project>, i: nat): Entries
    requires i <= |ps|
  {
    Apply(e, SyncAll(w, e, ps[..i]).writes)
  }

  lemma BeforeNext(w: World, e: Entries, ps: seq<Project>, i: nat)
    requires 0 < i <= |ps| && SyncProject(w, e, ps[0]).error.None?
    ensures Before(w, e, ps, i) == Before(w, Apply(e, SyncProject(w, e, ps[0]).writes), ps[1..], i - 1)
  {
    var first := SyncProject(w, e, ps[0]);
    var e1 := Apply(e, first.writes);
    assert ps[..i][0] == ps[0] && ps[..i][1..] == ps[1..][..i - 1];
    ApplyConcat(e, first.writes, SyncAll(w, e1, ps[1..][..i - 1]).writes);
  }

  lemma BeforeFirst(w: World, e: Entries, ps: seq<Project>)
    ensures Before(w, e, ps, 0) == e
  {
    assert ps[..0] == [];
  }

  /** Every turn up to `n` succeeds. */
  ghost predicate TurnsSucceed(w: World, e: Entries, ps: seq<Project>, n: nat)
    requires n <= |ps|
  {
    forall i | 0 <= i < n :: TurnSucceeds(w, Before(w, e, ps, i), ps[i])
  }

  lemma TurnsNext(w: World, e: Entries, ps: seq<Project>, n: nat)
    requires 0 < n <= |ps|
    ensures TurnsSucceed(w, e, ps, n) <==>
              && SyncProject(w, e, ps[0]).error.None?
              && TurnsSucceed(w, Apply(e, SyncProject(w, e, ps[0]).writes), ps[1..], n - 1)
  {
    var e1, tail := Apply(e, SyncProject(w, e, ps[0]).writes), ps[1..];
    BeforeFirst(w, e, ps);
    TurnIs(w, e, ps[0]);
    assert TurnsSucceed(w, e, ps, n) ==> TurnSucceeds(w, Before(w, e, ps, 0), ps[0]);
    if SyncProject(w, e, ps[0]).error.None? {
      forall i | 0 < i < n
        ensures Before(w, e, ps, i) == Before(w, e1, tail, i - 1) && ps[i] == tail[i - 1]
      {
        BeforeNext(w, e, ps, i);
      }
      if TurnsSucceed(w, e, ps, n) {
        forall i | 0 <= i < n - 1
          ensures TurnSucceeds(w, Before(w, e1, tail, i), tail[i])
        {
          assert TurnSucceeds(w, Before(w, e, ps, i + 1), ps[i + 1]);
        }
      }
    }
  }

  /** A run succeeds exactly if every project's turn does. */
  lemma {:induction false} RunSucceedsIff(w: World, e: Entries, ps: seq<Project>)
    ensures SyncAll(w, e, ps).error.None? <==> TurnsSucceed(w, e, ps, |ps|)
    decreases |ps|
  {
    if ps != [] {
      RunSucceedsIff(w, Apply(e, SyncProject(w, e, ps[0]).writes), ps[1..]);
      TurnsNext(w, e, ps, |ps|);
    }
  }

  /** Otherwise its error is the true one of the first project whose turn does not. */
  lemma {:induction false} RunFailsWith(w: World, e: Entries, ps: seq<Project>) returns (i: nat)
    requires SyncAll(w, e, ps).error.Some?
    ensures i < |ps| && TurnsSucceed(w, e, ps, i)
    ensures TurnFailsWith(w, Before(w, e, ps, i), ps[i], SyncAll(w, e, ps).error.value)
    decreases |ps|
  {
    var first := SyncProject(w, e, ps[0]);
    BeforeFirst(w, e, ps);
    TurnIs(w, e, ps[0]);
    if first.error.Some? {
      i := 0;
    } else {
      var j := RunFailsWith(w, Apply(e, first.writes), ps[1..]);
      i := j + 1;
      BeforeNext(w, e, ps, i);
      TurnsNext(w, e, ps, i);
    }
  }

  // ---- where projects do not get in each other's way ----

  lemma AgreeMatches(e: Entries, e2: Entries, p: Project, id: string)
    requires Agree(e, e2, p) && id in p.identifiers
    ensures MatchesAt(e, p, id) <==> MatchesAt(e2, p, id)
  {
  }

  lemma {:induction false} TurnsAgree(w: World, e: Entries, e2: Entries, p: Project)
    requires Agree(e, e2, p)
    ensures SyncProject(w, e, p) == SyncProject(w, e2, p)
  {
    ScanIdsAgree(w, e, e2, p.identifiers, p);
  }

  /** Whatever the writes so far, the turn of a project whose entries they do not touch is the same. */
  lemma {:induction false} RunApartIff(w: World, e: Entries, e2: Entries, ps: seq<Project>)
    requires LeadsApart(ps) && forall p | p in ps :: Agree(e, e2, p)
    ensures SyncAll(w, e2, ps).error.None? <==> forall p | p in ps :: TurnSucceeds(w, e, p)
    decreases |ps|
  {
    if ps != [] {
      var p, tail := ps[0], ps[1..];
      var first := SyncProject(w, e2, p);
      assert p in ps && forall q | q in tail :: q in ps;
      assert forall q | q in ps :: q == p || q in tail;
      TurnIs(w, e, p);
      TurnsAgree(w, e, e2, p);
      HeadApart(ps);
      forall q | q in tail
        ensures Agree(e, Apply(e2, first.writes), q)
      {
        TurnElsewhere(w, e2, e2, p, q, first.writes);
      }
      RunApartIff(w, e, Apply(e2, first.writes), tail);
    }
  }

  /**
   * On a lock where no project leads with another's identifier, a run succeeds exactly if every
   * project's turn would succeed in the environment the run starts from.
   */
  lemma RunSucceedsApartIff(w: World, e: Entries, ps: seq<Project>)
    requires LeadsApart(ps)
    ensures SyncAll(w, e, ps).error.None? <==> forall p | p in ps :: TurnSucceeds(w, e, p)
  {
    RunApartIff(w, e, e, ps);
  }
}
