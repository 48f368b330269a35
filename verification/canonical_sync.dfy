/**
 * What a sync run leaves behind for a lockfile and for its canonical form (core/src/lock.rs,
 * `canonicalize`, and core/src/commands/sync.rs, `do_sync`).
 */
module CanonicalSync {
  import opened Common
  import opened Orderings
  import opened Lockfile
  import opened Canonical
  import opened CanonicalValidity
  import opened CanonicalTargets
  import opened Sync

  // ---- what a run from scratch leaves ----

  function Key(p: Project): (string, string)
    requires p.identifiers != []
  {
    (p.identifiers[0], p.version)
  }

  /** The checksum of the last source that is installed. */
  function LastChecksum(p: Project): Option<Checksum> {
    match LastInstalled(p.sources) case None => None case Some(s) => ToChecksum(s)
  }

  function Landed(w: World, e: Entries, p: Project): Entries {
    if Lands(w, p) && p.identifiers != [] then e[Key(p) := LastChecksum(p)] else e
  }

  function LandAll(w: World, e: Entries, ps: seq<Project>): Entries
    decreases |ps|
  {
    if ps == [] then e else LandAll(w, Landed(w, e, ps[0]), ps[1..])
  }

  ghost predicate Fresh(e: Entries, p: Project) { forall id | id in p.identifiers :: (id, p.version) !in e }

  lemma FreshScan(w: World, e: Entries, p: Project)
    requires Fresh(e, p)
    ensures ScanIds(w, e, p.identifiers, p.version, p.sources) != Found
  {
    ScanIdsFinds(w, e, p.identifiers, p);
  }

  lemma InstallsOne(w: World, e: Entries, p: Project)
    requires p.sources != [] && !p.sources[0].Editable? && InstallAll(w, p, p.sources).error.None?
    ensures p.identifiers != [] && Apply(e, InstallAll(w, p, p.sources).writes) == e[Key(p) := LastChecksum(p)]
  {
    var writes := InstallAll(w, p, p.sources).writes;
    InstallLast(w, e, p, p.sources);
    forall key | key != Key(p)
      ensures key in Apply(e, writes) <==> key in e
      ensures key in e ==> Apply(e, writes)[key] == e[key]
    {
      forall x | x in writes
        ensures (x.iri, x.version) != key
      {
        InstallKey(w, p, p.sources, x);
      }
      ApplyKeeps(e, writes, key);
    }
    assert Apply(e, writes) == e[Key(p) := LastChecksum(p)];
  }

  /** One project that is not installed yet. */
  lemma FreshTurn(w: World, e: Entries, p: Project)
    requires SyncProject(w, e, p).error.None? && Fresh(e, p)
    ensures Lands(w, p) ==> p.identifiers != []
    ensures Apply(e, SyncProject(w, e, p).writes) == Landed(w, e, p)
  {
    FirstProvidedIs(w, p.identifiers, p.version);
    FreshScan(w, e, p);
    if Lands(w, p) {
      InstallsOne(w, e, p);
    }
  }

  lemma StillFresh(w: World, e: Entries, p: Project, q: Project)
    requires Fresh(e, q) && Clear(q, [p])
    ensures Fresh(Landed(w, e, p), q)
  {
    assert p in [p];
  }

  lemma {:induction false} RunLands(w: World, e: Entries, ps: seq<Project>)
    requires LeadsApart(ps) && SyncAll(w, e, ps).error.None? && forall p | p in ps :: Fresh(e, p)
    ensures Apply(e, SyncAll(w, e, ps).writes) == LandAll(w, e, ps)
    ensures forall p | p in ps && Lands(w, p) :: p.identifiers != []
    decreases |ps|
  {
    if ps != [] {
      var p, tail := ps[0], ps[1..];
      var first := SyncProject(w, e, p);
      assert p in ps && forall q | q in tail :: q in ps;
      FreshTurn(w, e, p);
      HeadApart(ps);
      forall q | q in tail
        ensures Fresh(Landed(w, e, p), q)
      {
        StillFresh(w, e, p, q);
      }
      RunLands(w, Landed(w, e, p), tail);
      ApplyConcat(e, first.writes, SyncAll(w, Landed(w, e, p), tail).writes);
      assert forall q | q in ps :: q == p || q in tail;
    }
  }

  predicate LandsAt(w: World, p: Project, key: (string, string)) {
    Lands(w, p) && p.identifiers != [] && Key(p) == key
  }

  lemma {:induction false} LandAllKeeps(w: World, e: Entries, ps: seq<Project>, key: (string, string))
    requires forall p | p in ps :: !LandsAt(w, p, key)
    ensures (key in LandAll(w, e, ps) <==> key in e) && (key in e ==> LandAll(w, e, ps)[key] == e[key])
    decreases |ps|
  {
    if ps != [] {
      assert ps[0] in ps && forall p | p in ps[1..] :: p in ps;
      LandAllKeeps(w, Landed(w, e, ps[0]), ps[1..], key);
    }
  }

  lemma {:induction false} LandAllHas(w: World, e: Entries, ps: seq<Project>, p: Project, key: (string, string))
    requires LeadsApart(ps) && p in ps && LandsAt(w, p, key)
    ensures key in LandAll(w, e, ps) && LandAll(w, e, ps)[key] == LastChecksum(p)
    decreases |ps|
  {
    var e1, tail := Landed(w, e, ps[0]), ps[1..];
    HeadApart(ps);
    if p == ps[0] {
      forall q | q in tail
        ensures !LandsAt(w, q, key)
      {
        assert p.identifiers[0] in p.identifiers;
      }
      LandAllKeeps(w, e1, tail, key);
    } else {
      LandAllHas(w, e1, tail, p, key);
    }
  }

  /** From scratch, the entries are exactly the targets. */
  lemma LandedKeys(w: World, ps: seq<Project>, key: (string, string))
    requires LeadsApart(ps)
    ensures key in LandAll(w, map[], ps) <==> exists p | p in ps :: LandsAt(w, p, key)
  {
    if p :| p in ps && LandsAt(w, p, key) {
      LandAllHas(w, map[], ps, p, key);
    } else {
      LandAllKeeps(w, map[], ps, key);
    }
  }

  // ---- lists of targets with the same entries ----

  function Somes(a: seq<(Option<string>, string)>): set<(Option<string>, string)> { set x | x in a && x.0.Some? }

  ghost predicate SomesDiffer(a: seq<(Option<string>, string)>) {
    forall i, j | 0 <= i < j < |a| :: a[i].0.Some? ==> a[i] != a[j]
  }

  lemma GreatestSome(a: seq<(Option<string>, string)>, b: seq<(Option<string>, string)>, k: nat)
    requires TotalOrder(CompareOption) && Below(CompareOption, a, b) && Somes(a) == Somes(b) && SomesDiffer(b)
    requires k < |a| && a[k].0.Some? && forall i | 0 <= i < |a| :: CompareOption(a[i].0, a[k].0) != Greater
    ensures forall j | 0 <= j < |a| && a[j].0 == a[k].0 && a[j].1 == a[k].1 :: b[j] == a[k]
    ensures forall j | 0 <= j < |a| && j != k :: a[j] != a[k] && b[j] != b[k]
  {
    forall j | 0 <= j < |a| && a[j] == a[k]
      ensures b[j] == a[k]
    {
      assert CompareOption(a[k].0, b[j].0) != Greater;
      assert b[j] in b && b[j] in Somes(b) && b[j] in a;
      var i :| 0 <= i < |a| && a[i] == b[j];
      assert CompareOption(b[j].0, a[k].0) != Greater;
      assert CompareOption(a[k].0, b[j].0) == Less <==> CompareOption(b[j].0, a[k].0) == Greater;
    }
  }

  lemma SomesWithout(a: seq<(Option<string>, string)>, k: nat)
    requires k < |a| && forall j | 0 <= j < |a| && j != k :: a[j] != a[k]
    ensures Somes(Without(a, k)) == Somes(a) - {a[k]}
  {
    var a' := Without(a, k);
    forall x | x in a'
      ensures x in a && x != a[k]
    {
      var i :| 0 <= i < |a'| && a'[i] == x;
      assert x == a[if i < k then i else i + 1];
    }
    forall x | x in a && x != a[k]
      ensures x in a'
    {
      var j :| 0 <= j < |a| && a[j] == x;
      assert a'[if j < k then j else j - 1] == x;
    }
  }

  lemma SomesDifferWithout(b: seq<(Option<string>, string)>, k: nat)
    requires k < |b| && SomesDiffer(b)
    ensures SomesDiffer(Without(b, k))
  {
    var b' := Without(b, k);
    forall i, j | 0 <= i < j < |b'| && b'[i].0.Some?
      ensures b'[i] != b'[j]
    {
      assert b'[i] == b[if i < k then i else i + 1] && b'[j] == b[if j < k then j else j + 1];
    }
  }

  lemma NoSomes(a: seq<(Option<string>, string)>, b: seq<(Option<string>, string)>)
    requires Below(CompareOption, a, b) && Somes(a) == {} && Somes(b) == {}
    ensures a == b
  {
    forall i | 0 <= i < |a|
      ensures a[i] == b[i]
    {
      assert a[i] in a && b[i] in b;
      assert a[i].0.None? by {
        assert a[i] !in Somes(a);
      }
      assert b[i].0.None? by {
        assert b[i] !in Somes(b);
      }
    }
  }

  /** Of two lists with the same entries, one below the other and without repeats, both are the same. */
  lemma {:induction false} SomesAreSame(a: seq<(Option<string>, string)>, b: seq<(Option<string>, string)>)
    requires Below(CompareOption, a, b) && Somes(a) == Somes(b) && SomesDiffer(b)
    ensures a == b
    decreases |a|
  {
    OptionOrder();
    if a != [] {
      var k := GreatestKey(CompareOption, a);
      if a[k].0.Some? {
        GreatestSome(a, b, k);
        SomesWithout(a, k);
        SomesWithout(b, k);
        SomesDifferWithout(b, k);
        BelowWithout(CompareOption, a, b, k);
        SomesAreSame(Without(a, k), Without(b, k));
        WithoutSame(a, b, k);
      } else {
        assert Somes(a) == {};
        NoSomes(a, b);
      }
    }
  }

  lemma SomesAre(w: World, ps: seq<Project>, x: (Option<string>, string))
    ensures x in Somes(Targets(w, ps)) <==> x.0.Some? && exists p | p in ps :: LandsAt(w, p, (x.0.value, x.1))
  {
    var a := Targets(w, ps);
    if x in Somes(a) {
      var i :| 0 <= i < |a| && a[i] == x;
      assert a[i] == Target(w, ps[i]) && LandsAt(w, ps[i], (x.0.value, x.1));
    }
    if x.0.Some? && exists p | p in ps :: LandsAt(w, p, (x.0.value, x.1)) {
      var p :| p in ps && LandsAt(w, p, (x.0.value, x.1));
      var i :| 0 <= i < |ps| && ps[i] == p;
      assert a[i] == x;
    }
  }

  lemma TargetsDiffer(w: World, ps: seq<Project>)
    requires LeadsApart(ps)
    ensures SomesDiffer(Targets(w, ps))
  {
    var a := Targets(w, ps);
    forall i, j | 0 <= i < j < |a| && a[i].0.Some?
      ensures a[i] != a[j]
    {
      assert a[i] == Target(w, ps[i]) && a[j] == Target(w, ps[j]);
      assert ps[i].identifiers[0] !in ps[j].identifiers;
    }
  }

  // ---- the same environment ----

  ghost predicate IsGreatest<T>(cmp: (T, T) -> Ordering, s: seq<T>, g: T) {
    g in s && forall x | x in s :: cmp(x, g) != Greater
  }

  /** The last source has the checksum of the greatest one in lower case. */
  ghost predicate EndsIn(cmp: (Source, Source) -> Ordering, sources: seq<Source>) {
    sources != [] ==>
      forall g | IsGreatest(cmp, sources, g) :: ToChecksum(sources[|sources| - 1]) == ToChecksum(LowerSource(g))
  }

  ghost predicate EndsInGreatest(p: Project) { EndsIn(CompareSource, p.sources) }

  lemma {:induction false} LastInstalledIs(sources: seq<Source>)
    requires sources != [] && forall s | s in sources :: !s.Editable?
    ensures LastInstalled(sources) == Some(sources[|sources| - 1])
  {
    assert sources[0] in sources && forall s | s in sources[1..] :: s in sources;
    if |sources| > 1 {
      LastInstalledIs(sources[1..]);
    }
  }

  lemma GreatestIsOne<T(!new)>(cmp: (T, T) -> Ordering, s: seq<T>, g: T, h: T)
    requires TotalOrder(cmp) && IsGreatest(cmp, s, g) && IsGreatest(cmp, s, h)
    ensures g == h
  {
    assert cmp(g, h) != Greater && cmp(h, g) != Greater;
    assert cmp(g, h) == Less <==> cmp(h, g) == Greater;
  }

  lemma LastIsGreatest<T(!new)>(cmp: (T, T) -> Ordering, s: seq<T>)
    requires TotalOrder(cmp) && Sorted(cmp, s) && s != []
    ensures IsGreatest(cmp, s, s[|s| - 1])
  {
    var last := s[|s| - 1];
    assert cmp(last, last) == Equal;
  }

  lemma SortedLast<T(!new)>(cmp: (T, T) -> Ordering, s: seq<T>)
    requires TotalOrder(cmp) && s != []
    ensures |Sort(cmp, s)| == |s| && IsGreatest(cmp, s, Sort(cmp, s)[|s| - 1])
  {
    SortSorted(cmp, s);
    SortElements(cmp, s);
    SameMembers(s, Sort(cmp, s));
    LastIsGreatest(cmp, Sort(cmp, s));
  }

  lemma EndsInIff(cmp: (Source, Source) -> Ordering, sources: seq<Source>)
    requires TotalOrder(cmp) && sources != []
    ensures |Sort(cmp, sources)| == |sources|
    ensures EndsIn(cmp, sources) <==>
              ToChecksum(sources[|sources| - 1]) == ToChecksum(LowerSource(Sort(cmp, sources)[|sources| - 1]))
  {
    SortedLast(cmp, sources);
    var g := Sort(cmp, sources)[|sources| - 1];
    forall h | IsGreatest(cmp, sources, h)
      ensures h == g
    {
      GreatestIsOne(cmp, sources, g, h);
    }
  }

  lemma LoweredNotEditable(sources: seq<Source>)
    requires forall s | s in sources :: !s.Editable?
    ensures forall s | s in Map(LowerSource, sources) :: !s.Editable?
  {
    var lowered := Map(LowerSource, sources);
    forall s | s in lowered
      ensures !s.Editable?
    {
      var k :| 0 <= k < |lowered| && lowered[k] == s;
      assert sources[k] in sources;
    }
  }

  lemma SortedChecksum(p: Project, sorted: seq<Source>)
    requires sorted != [] && SortProject(p).sources == sorted && forall s | s in sorted :: !s.Editable?
    ensures LastChecksum(CanonicalProject(p)) == ToChecksum(LowerSource(sorted[|sorted| - 1]))
  {
    LoweredNotEditable(sorted);
    LastInstalledIs(Map(LowerSource, sorted));
  }

  lemma CanonicalLast(p: Project, sorted: seq<Source>)
    requires p.sources != [] && NoEditable(p) && sorted == Sort(CompareSource, p.sources) && |sorted| == |p.sources|
    ensures LastChecksum(CanonicalProject(p)) == ToChecksum(LowerSource(sorted[|sorted| - 1]))
  {
    SortElements(CompareSource, p.sources);
    SameMembers(p.sources, sorted);
    SortedChecksum(p, sorted);
  }

  lemma LastChecksumKeptIff(p: Project)
    requires p.sources != [] && NoEditable(p)
    ensures LastChecksum(CanonicalProject(p)) == LastChecksum(p) <==> EndsInGreatest(p)
  {
    SourceOrder();
    EndsInIff(CompareSource, p.sources);
    CanonicalLast(p, Sort(CompareSource, p.sources));
    LastInstalledIs(p.sources);
  }

  /** What canonicalising keeps of a project that a run installs. */
  ghost predicate LandsAlike(p: Project) { LeadsWithLeast(p) && NoEditable(p) && EndsInGreatest(p) }

  lemma AlikeIff(w: World, p: Project)
    requires Lands(w, p) && p.identifiers != []
    ensures LandsAlike(p) <==>
              && Target(w, CanonicalProject(p)) == Target(w, p)
              && LastChecksum(CanonicalProject(p)) == LastChecksum(p)
  {
    CanonicalTarget(w, p);
    if NoEditable(p) {
      LastChecksumKeptIff(p);
    }
  }

  lemma CanonicalSomes(w: World, lock: Lock)
    ensures Somes(Targets(w, Canonicalize(lock).projects)) == Somes(Targets(w, Map(CanonicalProject, lock.projects)))
  {
    TargetsOfCanonical(w, lock);
    var a, b := Targets(w, Canonicalize(lock).projects), Targets(w, Map(CanonicalProject, lock.projects));
    SameMembers(a, b);
  }

  lemma SameTargets(w: World, lock: Lock)
    requires LeadsApart(lock.projects) && LeadsApart(Canonicalize(lock).projects)
    requires LandAll(w, map[], lock.projects) == LandAll(w, map[], Canonicalize(lock).projects)
    ensures Targets(w, Map(CanonicalProject, lock.projects)) == Targets(w, lock.projects)
  {
    var ps, qs := lock.projects, Canonicalize(lock).projects;
    forall x
      ensures x in Somes(Targets(w, ps)) <==> x in Somes(Targets(w, qs))
    {
      SomesAre(w, ps, x);
      SomesAre(w, qs, x);
      if x.0.Some? {
        LandedKeys(w, ps, (x.0.value, x.1));
        LandedKeys(w, qs, (x.0.value, x.1));
      }
    }
    CanonicalSomes(w, lock);
    TargetsBelow(w, ps);
    TargetsDiffer(w, ps);
    SomesAreSame(Targets(w, Map(CanonicalProject, ps)), Targets(w, ps));
  }

  lemma AlikeIfSame(w: World, lock: Lock, p: Project)
    requires LeadsApart(lock.projects) && LeadsApart(Canonicalize(lock).projects)
    requires LandAll(w, map[], lock.projects) == LandAll(w, map[], Canonicalize(lock).projects)
    requires p in lock.projects && Lands(w, p) && p.identifiers != []
    ensures LandsAlike(p)
  {
    var c := CanonicalProject(p);
    SameTargets(w, lock);
    assert Target(w, c) == Target(w, p) by {
      var i :| 0 <= i < |lock.projects| && lock.projects[i] == p;
      assert Targets(w, Map(CanonicalProject, lock.projects))[i] == Target(w, c);
      assert Targets(w, lock.projects)[i] == Target(w, p);
    }
    ToCanonical(lock, p);
    LandAllHas(w, map[], lock.projects, p, Key(p));
    LandAllHas(w, map[], Canonicalize(lock).projects, c, Key(p));
    AlikeIff(w, p);
  }

  lemma SameAt(w: World, lock: Lock, key: (string, string))
    requires LeadsApart(lock.projects) && LeadsApart(Canonicalize(lock).projects)
    requires forall p | p in lock.projects && Lands(w, p) && p.identifiers != [] :: LandsAlike(p)
    ensures var e, e' := LandAll(w, map[], lock.projects), LandAll(w, map[], Canonicalize(lock).projects);
            (key in e <==> key in e') && (key in e ==> e[key] == e'[key])
  {
    var ps, qs := lock.projects, Canonicalize(lock).projects;
    LandedKeys(w, ps, key);
    LandedKeys(w, qs, key);
    if p :| p in ps && LandsAt(w, p, key) {
      AlikeIff(w, p);
      ToCanonical(lock, p);
      LandAllHas(w, map[], ps, p, key);
      LandAllHas(w, map[], qs, CanonicalProject(p), key);
    } else if q :| q in qs && LandsAt(w, q, key) {
      FromCanonical(lock, q);
      var p :| p in ps && q == CanonicalProject(p);
      LandsBefore(w, p);
      AlikeIff(w, p);
      assert LandsAt(w, p, key);
    }
  }

  /** A project whose canonical form is installed is installed itself. */
  lemma LandsBefore(w: World, p: Project)
    requires Lands(w, CanonicalProject(p)) && CanonicalProject(p).identifiers != []
    ensures Lands(w, p) && p.identifiers != []
  {
    CanonicalLands(w, p);
    SortedMembers(p);
    assert p.sources[0] in p.sources;
    assert CanonicalProject(p).identifiers[0] in p.identifiers;
  }

  /**
   * Successful runs from scratch on a lock and on its canonical form, in neither of which a
   * project leads with another's identifier, leave the same environment exactly if every
   * project that is installed leads with its least identifier, has no editable source and ends
   * in a source with the checksum of its greatest one in lower case.
   */
  lemma SameEnvironmentIff(w: World, lock: Lock)
    requires LeadsApart(lock.projects) && LeadsApart(Canonicalize(lock).projects)
    requires SyncAll(w, map[], lock.projects).error.None?
    requires SyncAll(w, map[], Canonicalize(lock).projects).error.None?
    ensures Apply(map[], SyncAll(w, map[], lock.projects).writes)
         == Apply(map[], SyncAll(w, map[], Canonicalize(lock).projects).writes)
       <==> forall p | p in lock.projects && Lands(w, p) :: LandsAlike(p)
  {
    var ps, qs := lock.projects, Canonicalize(lock).projects;
    RunLands(w, map[], ps);
    RunLands(w, map[], qs);
    if LandAll(w, map[], ps) == LandAll(w, map[], qs) {
      forall p | p in ps && Lands(w, p)
        ensures LandsAlike(p)
      {
        AlikeIfSame(w, lock, p);
      }
    }
    if forall p | p in ps && Lands(w, p) :: LandsAlike(p) {
      forall key
        ensures var e, e' := LandAll(w, map[], ps), LandAll(w, map[], qs);
                (key in e <==> key in e') && (key in e ==> e[key] == e'[key])
      {
        SameAt(w, lock, key);
      }
    }
  }

  // ---- where it is not the same ----

  /** Nothing is provided, everything can be read and `s` holds what it says. */
  ghost predicate Serves(w: World, s: Source) {
    && w.provided == map[]
    && ToChecksum(s).Some? && w.storage(s) == Holds(ToChecksum(s).value)
    && (forall id, version :: !w.unreadable(id, version) && !w.installFails(id, version, s))
  }

  lemma OneProject(w: World, p: Project, s: Source)
    requires Serves(w, s) && p.sources == [s] && p.identifiers != []
    ensures SyncAll(w, map[], [p]) == Effect(None, [Write(p.identifiers[0], p.version, ToChecksum(s))])
  {
    FirstProvidedIs(w, p.identifiers, p.version);
    FreshScan(w, map[], p);
    EmptyReadable(w, p.identifiers, p.version, s);
    assert p.sources[1..] == [];
    assert InstallAll(w, p, p.sources) == Effect(None, [Write(p.identifiers[0], p.version, ToChecksum(s))]);
    assert [p][1..] == [];
  }

  lemma {:induction false} EmptyReadable(w: World, ids: seq<string>, version: string, s: Source)
    requires Serves(w, s)
    ensures ScanIds(w, map[], ids, version, [s]) == Absent
  {
    if ids != [] {
      assert [s][1..] == [];
      assert ScanSources(w, map[], ids[0], version, [s]) == Absent;
      EmptyReadable(w, ids[1..], version, s);
    }
  }

  /** One source and the identifiers `b` and `a`, in this order. */
  predicate IsAliased(p: Project) {
    p.exports == [] && p.usages == [] && p.identifiers == ["b", "a"] && p.sources == [WithDigit('a')]
  }

  lemma AliasedCanonical(p: Project)
    requires IsAliased(p)
    ensures var c := CanonicalProject(p);
            && c.identifiers != [] && c.identifiers[0] == "a" && c.version == p.version
            && c.sources == [WithDigit('a')] && c.exports == [] && c.usages == []
  {
    var s := WithDigit('a');
    assert IsLeast(p.identifiers, "a") by {
      StringOrder();
      assert p.identifiers[1] == "a";
      assert CompareString("a", "b") == Less;
    }
    SortedFirstIff(p.identifiers, "a");
    assert Sort(CompareSource, [s]) == [s] by {
      assert [s][1..] == [];
    }
    LowerWithDigit('a');
    assert Map(LowerSource, [s]) == [LowerSource(s)];
  }

  lemma OneValidates(located: Source -> bool, p: Project)
    requires located(WithDigit('a')) && p.exports == [] && p.usages == [] && p.sources == [WithDigit('a')]
    ensures Validates(located, Lock(CURRENT_LOCK_VERSION, [p]))
  {
    assert [p][..0] == [] && AllExports([p]) == [];
    DigestWithDigit('a');
  }

  /** A valid lock that stays valid and is installed at `b` before and at `a` after. */
  lemma TargetCanMove(located: Source -> bool, w: World, p: Project)
    requires IsAliased(p) && located(WithDigit('a')) && Serves(w, WithDigit('a'))
    ensures var lock := Lock(CURRENT_LOCK_VERSION, [p]);
            var checksum := ToChecksum(WithDigit('a'));
            && Validates(located, lock) && Validates(located, Canonicalize(lock))
            && SyncAll(w, map[], lock.projects) == Effect(None, [Write("b", p.version, checksum)])
            && SyncAll(w, map[], Canonicalize(lock).projects) == Effect(None, [Write("a", p.version, checksum)])
  {
    CanonicalOne(CURRENT_LOCK_VERSION, p);
    AliasedCanonical(p);
    OneValidates(located, p);
    OneValidates(located, CanonicalProject(p));
    OneProject(w, p, WithDigit('a'));
    OneProject(w, CanonicalProject(p), WithDigit('a'));
  }

  /** A project with an editable source behind others is installed, and its canonical form is not. */
  lemma EditableStopsInstall(w: World, p: Project)
    requires Lands(w, p) && !NoEditable(p) && SyncProject(w, map[], p).error.None?
    ensures SyncProject(w, map[], p).writes != []
    ensures SyncProject(w, map[], CanonicalProject(p)).writes == []
  {
    FreshTurn(w, map[], p);
    CanonicalLands(w, p);
    var c := CanonicalProject(p);
    if SyncProject(w, map[], c).writes != [] {
      WritesAtTarget(w, map[], c, SyncProject(w, map[], c).writes[0]);
    }
  }
}
