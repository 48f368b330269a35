/** Lockfiles, their orders and their validation (core/src/lock.rs). */
module Lockfile {
  import opened Common
  import opened Orderings

  /** Paths are compared by component, as the path library does. */
  datatype Component = RootDir | CurDir | ParentDir | Normal(name: string)

  type UnixPath = seq<Component>

  datatype Source =
    | Editable(path: UnixPath)
    | LocalSrc(path: UnixPath, digest: string)
    | LocalKpar(path: UnixPath, size: nat, digest: string)
    | RemoteKpar(url: string, size: nat, digest: string)
    | IndexKpar(url: string, size: nat, digest: string)
    | RemoteSrc(url: string, digest: string)
    | RemoteGit(url: string)

  datatype Checksum = ProjectChecksum(hex: string) | KparChecksum(hex: string)

  function ToChecksum(s: Source): Option<Checksum> {
    match s
    case Editable(_) => None
    case RemoteGit(_) => None
    case RemoteSrc(_, digest) => Some(ProjectChecksum(digest))
    case LocalSrc(_, digest) => Some(ProjectChecksum(digest))
    case LocalKpar(_, _, digest) => Some(KparChecksum(digest))
    case RemoteKpar(_, _, digest) => Some(KparChecksum(digest))
    case IndexKpar(_, _, digest) => Some(KparChecksum(digest))
  }

  datatype Project = Project(
    publisher: Option<string>,
    name: string,
    version: string,
    exports: seq<string>,
    identifiers: seq<string>,
    usages: seq<string>,
    sources: seq<Source>)

  datatype Lock = Lock(lockVersion: string, projects: seq<Project>)

  const CURRENT_LOCK_VERSION := "0.5"

  function First(p: Project): Option<string> {
    if p.identifiers == [] then None else Some(p.identifiers[0])
  }

  // ---- orders ----

  function ComponentRank(c: Component): nat {
    match c case RootDir => 0 case CurDir => 1 case ParentDir => 2 case Normal(_) => 3
  }

  function CompareComponent(a: Component, b: Component): Ordering {
    if a.Normal? && b.Normal? then CompareString(a.name, b.name)
    else CompareInt(ComponentRank(a), ComponentRank(b))
  }

  function ComparePath(a: UnixPath, b: UnixPath): Ordering { Lex(CompareComponent, a, b) }

  function SourceRank(s: Source): nat {
    match s
    case Editable(_) => 0
    case LocalSrc(_, _) => 1
    case LocalKpar(_, _, _) => 2
    case RemoteKpar(_, _, _) => 3
    case IndexKpar(_, _, _) => 4
    case RemoteSrc(_, _) => 5
    case RemoteGit(_) => 6
  }

  predicate HasPath(s: Source) { s.Editable? || s.LocalSrc? || s.LocalKpar? }
  predicate HasSize(s: Source) { s.LocalKpar? || s.RemoteKpar? || s.IndexKpar? }
  predicate HasDigest(s: Source) { !s.Editable? && !s.RemoteGit? }

  function PathOf(s: Source): UnixPath { if HasPath(s) then s.path else [] }
  function UrlOf(s: Source): string { if HasPath(s) then "" else s.url }
  function SizeOf(s: Source): nat { if HasSize(s) then s.size else 0 }
  function DigestOf(s: Source): string { if HasDigest(s) then s.digest else "" }

  /** The derived order: the variant, then its fields; a field a variant lacks ties. */
  function CompareSource(a: Source, b: Source): Ordering {
    CompareInt(SourceRank(a), SourceRank(b))
      .Then(ComparePath(PathOf(a), PathOf(b)))
      .Then(CompareString(UrlOf(a), UrlOf(b)))
      .Then(CompareInt(SizeOf(a), SizeOf(b)))
      .Then(CompareString(DigestOf(a), DigestOf(b)))
  }

  function CompareProject(a: Project, b: Project): Ordering {
    CompareString(a.name, b.name)
      .Then(CompareStrings(a.exports, b.exports))
      .Then(CompareStrings(a.identifiers, b.identifiers))
      .Then(CompareString(a.version, b.version))
  }

  /** How a compares with b, b with c and a with c. */
  datatype Triple = Triple(ab: Ordering, bc: Ordering, ac: Ordering) {
    function Then(next: Triple): Triple { Triple(ab.Then(next.ab), bc.Then(next.bc), ac.Then(next.ac)) }

    /** The three hang together. */
    predicate Chains() {
      && (ab != Greater && bc != Greater ==> ac != Greater)
      && (ab == Less && bc != Greater ==> ac == Less)
      && (ab != Greater && bc == Less ==> ac == Less)
      && (ab == Equal && bc == Equal ==> ac == Equal)
    }
  }

  function Compared<T>(cmp: (T, T) -> Ordering, a: T, b: T, c: T): Triple { Triple(cmp(a, b), cmp(b, c), cmp(a, c)) }

  lemma ThenChains(t: Triple, next: Triple)
    requires t.Chains() && next.Chains()
    ensures t.Then(next).Chains()
  {
  }

  lemma OrderChains<T(!new)>(cmp: (T, T) -> Ordering, a: T, b: T, c: T)
    requires WeakOrder(cmp)
    ensures Compared(cmp, a, b, c).Chains()
  {
    assert cmp(a, c) == Greater <==> cmp(c, a) == Less;
    if cmp(a, b) != Greater && cmp(b, c) != Greater && cmp(a, c) == Equal {
      assert cmp(c, a) != Greater;
      assert cmp(b, a) != Greater && cmp(c, b) != Greater;
    }
  }

  lemma ComponentOrder()
    ensures TotalOrder(CompareComponent)
  {
    StringOrder();
    forall a, b, c | CompareComponent(a, b) != Greater && CompareComponent(b, c) != Greater
      ensures CompareComponent(a, c) != Greater
    {
      if a.Normal? && b.Normal? && c.Normal? {
        assert CompareString(a.name, b.name) != Greater && CompareString(b.name, c.name) != Greater;
      }
    }
  }

  lemma PathOrder()
    ensures TotalOrder(ComparePath)
  {
    ComponentOrder();
    forall a, b {
      LexPair(CompareComponent, a, b);
    }
    forall a, b, c | ComparePath(a, b) != Greater && ComparePath(b, c) != Greater
      ensures ComparePath(a, c) != Greater
    {
      LexTransitive(CompareComponent, a, b, c);
    }
  }

  lemma SourceChains(a: Source, b: Source, c: Source)
    ensures Compared(CompareSource, a, b, c).Chains()
  {
    var rank := Compared<int>(CompareInt, SourceRank(a), SourceRank(b), SourceRank(c));
    var path := Compared(ComparePath, PathOf(a), PathOf(b), PathOf(c));
    var url := Compared(CompareString, UrlOf(a), UrlOf(b), UrlOf(c));
    var size := Compared<int>(CompareInt, SizeOf(a), SizeOf(b), SizeOf(c));
    var digest := Compared(CompareString, DigestOf(a), DigestOf(b), DigestOf(c));
    assert rank.Then(path).Then(url).Then(size).Then(digest).Chains() by {
      PathOrder();
      StringOrder();
      OrderChains<int>(CompareInt, SourceRank(a), SourceRank(b), SourceRank(c));
      OrderChains(ComparePath, PathOf(a), PathOf(b), PathOf(c));
      OrderChains(CompareString, UrlOf(a), UrlOf(b), UrlOf(c));
      OrderChains<int>(CompareInt, SizeOf(a), SizeOf(b), SizeOf(c));
      OrderChains(CompareString, DigestOf(a), DigestOf(b), DigestOf(c));
      ThenChains(rank, path);
      ThenChains(rank.Then(path), url);
      ThenChains(rank.Then(path).Then(url), size);
      ThenChains(rank.Then(path).Then(url).Then(size), digest);
    }
  }

  /** How a compares with b and b with a. */
  predicate Mirrors(ab: Ordering, ba: Ordering) { (ab == Less <==> ba == Greater) && (ab == Greater <==> ba == Less) }

  lemma OrderMirrors<T(!new)>(cmp: (T, T) -> Ordering, a: T, b: T)
    requires WeakOrder(cmp)
    ensures Mirrors(cmp(a, b), cmp(b, a))
  {
  }

  lemma ThenMirrors(ab: Ordering, ba: Ordering, ab': Ordering, ba': Ordering)
    requires Mirrors(ab, ba) && Mirrors(ab', ba')
    ensures Mirrors(ab.Then(ab'), ba.Then(ba'))
  {
  }

  lemma SourceMirrors(a: Source, b: Source)
    ensures Mirrors(CompareSource(a, b), CompareSource(b, a))
  {
    var rank, rank' := CompareInt(SourceRank(a), SourceRank(b)), CompareInt(SourceRank(b), SourceRank(a));
    var path, path' := ComparePath(PathOf(a), PathOf(b)), ComparePath(PathOf(b), PathOf(a));
    var url, url' := CompareString(UrlOf(a), UrlOf(b)), CompareString(UrlOf(b), UrlOf(a));
    var size, size' := CompareInt(SizeOf(a), SizeOf(b)), CompareInt(SizeOf(b), SizeOf(a));
    var digest, digest' := CompareString(DigestOf(a), DigestOf(b)), CompareString(DigestOf(b), DigestOf(a));
    assert Mirrors(path, path') && Mirrors(url, url') && Mirrors(digest, digest') by {
      PathOrder();
      StringOrder();
      OrderMirrors(ComparePath, PathOf(a), PathOf(b));
      OrderMirrors(CompareString, UrlOf(a), UrlOf(b));
      OrderMirrors(CompareString, DigestOf(a), DigestOf(b));
    }
    ThenMirrors(rank, rank', path, path');
    ThenMirrors(rank.Then(path), rank'.Then(path'), url, url');
    ThenMirrors(rank.Then(path).Then(url), rank'.Then(path').Then(url'), size, size');
    ThenMirrors(rank.Then(path).Then(url).Then(size), rank'.Then(path').Then(url').Then(size'), digest, digest');
  }

  lemma SourceTies(a: Source, b: Source)
    requires CompareSource(a, b) == Equal
    ensures a == b
  {
    PathOrder();
    StringOrder();
    assert PathOf(a) == PathOf(b) && UrlOf(a) == UrlOf(b) && DigestOf(a) == DigestOf(b);
  }

  lemma SourceOrder()
    ensures TotalOrder(CompareSource)
  {
    forall a, b
      ensures CompareSource(a, b) == Less <==> CompareSource(b, a) == Greater
      ensures CompareSource(a, b) == Equal ==> a == b
    {
      SourceMirrors(a, b);
      if CompareSource(a, b) == Equal {
        SourceTies(a, b);
      }
    }
    forall a, b, c | CompareSource(a, b) != Greater && CompareSource(b, c) != Greater
      ensures CompareSource(a, c) != Greater
    {
      SourceChains(a, b, c);
    }
  }

  lemma ProjectChains(a: Project, b: Project, c: Project)
    ensures Compared(CompareProject, a, b, c).Chains()
  {
    var name := Compared(CompareString, a.name, b.name, c.name);
    var exports := Compared(CompareStrings, a.exports, b.exports, c.exports);
    var identifiers := Compared(CompareStrings, a.identifiers, b.identifiers, c.identifiers);
    var version := Compared(CompareString, a.version, b.version, c.version);
    assert name.Then(exports).Then(identifiers).Then(version).Chains() by {
      StringOrder();
      StringsOrder();
      OrderChains(CompareString, a.name, b.name, c.name);
      OrderChains(CompareStrings, a.exports, b.exports, c.exports);
      OrderChains(CompareStrings, a.identifiers, b.identifiers, c.identifiers);
      OrderChains(CompareString, a.version, b.version, c.version);
      ThenChains(name, exports);
      ThenChains(name.Then(exports), identifiers);
      ThenChains(name.Then(exports).Then(identifiers), version);
    }
  }

  lemma ProjectMirrors(a: Project, b: Project)
    ensures Mirrors(CompareProject(a, b), CompareProject(b, a))
  {
    var name, name' := CompareString(a.name, b.name), CompareString(b.name, a.name);
    var exports, exports' := CompareStrings(a.exports, b.exports), CompareStrings(b.exports, a.exports);
    var ids, ids' := CompareStrings(a.identifiers, b.identifiers), CompareStrings(b.identifiers, a.identifiers);
    var version, version' := CompareString(a.version, b.version), CompareString(b.version, a.version);
    assert Mirrors(name, name') && Mirrors(exports, exports') && Mirrors(ids, ids') && Mirrors(version, version') by {
      StringOrder();
      StringsOrder();
      OrderMirrors(CompareString, a.name, b.name);
      OrderMirrors(CompareStrings, a.exports, b.exports);
      OrderMirrors(CompareStrings, a.identifiers, b.identifiers);
      OrderMirrors(CompareString, a.version, b.version);
    }
    ThenMirrors(name, name', exports, exports');
    ThenMirrors(name.Then(exports), name'.Then(exports'), ids, ids');
    ThenMirrors(name.Then(exports).Then(ids), name'.Then(exports').Then(ids'), version, version');
  }

  lemma ProjectTies(a: Project, b: Project)
    requires CompareProject(a, b) == Equal
    ensures a.identifiers == b.identifiers
  {
    StringsOrder();
  }

  /** Projects are only weakly ordered: different ones may tie. */
  lemma ProjectOrder()
    ensures WeakOrder(CompareProject)
  {
    forall a, b
      ensures CompareProject(a, b) == Less <==> CompareProject(b, a) == Greater
    {
      ProjectMirrors(a, b);
    }
    forall a, b, c | CompareProject(a, b) != Greater && CompareProject(b, c) != Greater
      ensures CompareProject(a, c) != Greater
    {
      ProjectChains(a, b, c);
    }
  }

  // ---- validity ----

  ghost predicate NoRepeats<T>(s: seq<T>) { forall i, j | 0 <= i < j < |s| :: s[i] != s[j] }

  function AllExports(ps: seq<Project>): seq<string> {
    if ps == [] then [] else AllExports(ps[..|ps| - 1]) + ps[|ps| - 1].exports
  }

  /** First identifiers differ, so at most one project has none. */
  ghost predicate FirstsDiffer(ps: seq<Project>) {
    forall i, j | 0 <= i < j < |ps| :: First(ps[i]) != First(ps[j])
  }

  ghost predicate NoCollisions(ps: seq<Project>) { FirstsDiffer(ps) && NoRepeats(AllExports(ps)) }

  predicate IsIdentifier(ps: seq<Project>, iri: string) {
    exists p | p in ps :: iri in p.identifiers
  }

  predicate UsagesSatisfied(ps: seq<Project>) {
    forall p, u | p in ps && u in p.usages :: IsIdentifier(ps, u)
  }

  predicate DigestFits(s: Source) {
    HasDigest(s) ==> |s.digest| == 64 && forall c | c in s.digest :: '0' <= c <= '9' || 'a' <= c <= 'f'
  }

  /** `located` stands for the path and URL parsers. */
  predicate SourcesFit(located: Source -> bool, ps: seq<Project>) {
    forall p, s | p in ps && s in p.sources :: located(s) && DigestFits(s)
  }

  ghost predicate Validates(located: Source -> bool, lock: Lock) {
    && lock.lockVersion == CURRENT_LOCK_VERSION
    && NoCollisions(lock.projects)
    && UsagesSatisfied(lock.projects)
    && SourcesFit(located, lock.projects)
  }

  datatype ValidationError =
    | UnsupportedVersion(version: string)
    | NameCollision(symbol: string)
    | ProjectIdCollision(id: string)
    | ProjectWithoutId
    | UnsatisfiedUsage(usage: string)
    | InvalidSource(source: Source)

  datatype Verdict = Valid | Invalid(error: ValidationError)

  /** `x` stands at two places. */
  ghost predicate Twice<T>(s: seq<T>, x: T) { exists i, j | 0 <= i < j < |s| :: s[i] == x && s[j] == x }

  lemma TwiceStays<T>(a: seq<T>, b: seq<T>, x: T)
    requires a <= b && Twice(a, x)
    ensures Twice(b, x) && !NoRepeats(b)
  {
    var i, j :| 0 <= i < j < |a| && a[i] == x && a[j] == x;
    assert b[i] == x && b[j] == x;
  }

  lemma ExportsUpTo(ps: seq<Project>, i: nat)
    requires i < |ps|
    ensures AllExports(ps[..i + 1]) == AllExports(ps[..i]) + ps[i].exports
  {
    assert ps[..i + 1][..i] == ps[..i];
  }

  lemma {:induction false} ExportsPrefix(ps: seq<Project>, i: nat)
    requires i <= |ps|
    ensures AllExports(ps[..i]) <= AllExports(ps)
    decreases |ps|
  {
    if i < |ps| {
      var init := ps[..|ps| - 1];
      ExportsPrefix(init, i);
      assert init[..i] == ps[..i];
    } else {
      assert ps[..i] == ps;
    }
  }

  function FirstSet(ps: seq<Project>): set<Option<string>> { set p | p in ps :: First(p) }

  lemma FirstsUpTo(ps: seq<Project>, i: nat)
    requires i < |ps|
    ensures FirstSet(ps[..i + 1]) == FirstSet(ps[..i]) + {First(ps[i])}
    ensures FirstsDiffer(ps[..i]) && First(ps[i]) !in FirstSet(ps[..i]) ==> FirstsDiffer(ps[..i + 1])
    ensures First(ps[i]) in FirstSet(ps[..i]) ==> !FirstsDiffer(ps) && Twice(Map(First, ps), First(ps[i]))
  {
    assert ps[..i + 1] == ps[..i] + [ps[i]];
    if First(ps[i]) in FirstSet(ps[..i]) {
      var j :| 0 <= j < i && First(ps[..i][j]) == First(ps[i]);
      assert First(ps[j]) == First(ps[i]);
      assert Map(First, ps)[j] == Map(First, ps)[i] == First(ps[i]);
    } else {
      assert forall j | 0 <= j < i :: ps[..i][j] in ps[..i];
    }
  }

  /** One project's exports against those seen so far. */
  method CheckExports(ghost before: seq<string>, seen: set<string>, exports: seq<string>)
    returns (ok: bool, symbol: string, seen': set<string>)
    requires NoRepeats(before) && seen == set x | x in before
    ensures ok <==> NoRepeats(before + exports)
    ensures ok ==> seen' == set x | x in before + exports
    ensures !ok ==> Twice(before + exports, symbol)
  {
    ok, symbol, seen' := true, "", seen;
    assert before + exports[..0] == before;
    for j := 0 to |exports|
      invariant NoRepeats(before + exports[..j])
      invariant seen' == set x | x in before + exports[..j]
    {
      var name := exports[j];
      ghost var sofar := before + exports[..j];
      assert before + exports[..j + 1] == sofar + [name];
      if name in seen' {
        assert Twice(sofar + [name], name) by {
          var i :| 0 <= i < |sofar| && sofar[i] == name;
          assert (sofar + [name])[i] == (sofar + [name])[|sofar|];
        }
        assert sofar + [name] <= before + exports;
        TwiceStays(sofar + [name], before + exports, name);
        return false, name, seen';
      }
      seen' := seen' + {name};
    }
    assert exports[..|exports|] == exports;
  }

  /** What a collision error says of the projects. */
  ghost predicate CollisionTrue(ps: seq<Project>, e: ValidationError) {
    match e
    case ProjectIdCollision(id) => Twice(Map(First, ps), Some(id))
    case ProjectWithoutId => Twice(Map(First, ps), None)
    case NameCollision(symbol) => Twice(AllExports(ps), symbol)
    case _ => false
  }

  method CheckNameCollision(ps: seq<Project>) returns (r: Verdict)
    ensures r.Valid? <==> NoCollisions(ps)
    ensures r.Invalid? ==> CollisionTrue(ps, r.error)
  {
    var seenProjects: set<Option<string>> := {};
    var seenExports: set<string> := {};
    for i := 0 to |ps|
      invariant FirstsDiffer(ps[..i]) && NoRepeats(AllExports(ps[..i]))
      invariant seenProjects == FirstSet(ps[..i])
      invariant seenExports == set x | x in AllExports(ps[..i])
    {
      var p := ps[i];
      FirstsUpTo(ps, i);
      if First(p) in seenProjects {
        return Invalid(if p.identifiers == [] then ProjectWithoutId else ProjectIdCollision(p.identifiers[0]));
      }
      seenProjects := seenProjects + {First(p)};
      ExportsUpTo(ps, i);
      var ok, symbol;
      ok, symbol, seenExports := CheckExports(AllExports(ps[..i]), seenExports, p.exports);
      if !ok {
        ExportsPrefix(ps, i + 1);
        TwiceStays(AllExports(ps[..i + 1]), AllExports(ps), symbol);
        return Invalid(NameCollision(symbol));
      }
    }
    assert ps[..|ps|] == ps;
    r := Valid;
  }

  method ValidateUsages(ps: seq<Project>) returns (r: Verdict)
    ensures r.Valid? <==> UsagesSatisfied(ps)
    ensures r.Invalid? ==> r.error.UnsatisfiedUsage? && !IsIdentifier(ps, r.error.usage)
    ensures r.Invalid? ==> exists p | p in ps :: r.error.usage in p.usages
  {
    var iris: set<string> := {};
    for i := 0 to |ps|
      invariant forall x :: x in iris <==> exists j | 0 <= j < i :: x in ps[j].identifiers
    {
      iris := iris + set x | x in ps[i].identifiers;
    }
    for i := 0 to |ps|
      invariant forall j, u | 0 <= j < i && u in ps[j].usages :: u in iris
    {
      for k := 0 to |ps[i].usages|
        invariant forall u | u in ps[i].usages[..k] :: u in iris
      {
        if ps[i].usages[k] !in iris {
          var usage := ps[i].usages[k];
          assert ps[i] in ps && usage in ps[i].usages;
          assert !IsIdentifier(ps, usage);
          return Invalid(UnsatisfiedUsage(usage));
        }
      }
    }
    forall p, u | p in ps && u in p.usages
      ensures IsIdentifier(ps, u)
    {
      var i :| 0 <= i < |ps| && ps[i] == p;
      assert u in ps[i].usages && u in iris;
      var j :| 0 <= j < |ps| && u in ps[j].identifiers;
      assert ps[j] in ps;
    }
    r := Valid;
  }

  method ValidateSources(located: Source -> bool, ps: seq<Project>) returns (r: Verdict)
    ensures r.Valid? <==> SourcesFit(located, ps)
    ensures r.Invalid? ==> r.error.InvalidSource? && !(located(r.error.source) && DigestFits(r.error.source))
    ensures r.Invalid? ==> exists p | p in ps :: r.error.source in p.sources
  {
    for i := 0 to |ps|
      invariant forall j, s | 0 <= j < i && s in ps[j].sources :: located(s) && DigestFits(s)
    {
      for k := 0 to |ps[i].sources|
        invariant forall s | s in ps[i].sources[..k] :: located(s) && DigestFits(s)
      {
        var s := ps[i].sources[k];
        if !located(s) || !DigestFits(s) {
          assert ps[i] in ps && s in ps[i].sources;
          return Invalid(InvalidSource(s));
        }
      }
    }
    r := Valid;
  }

  /** What a validation error says of the lock. */
  ghost predicate ErrorTrue(located: Source -> bool, lock: Lock, e: ValidationError) {
    match e
    case UnsupportedVersion(version) => version == lock.lockVersion != CURRENT_LOCK_VERSION
    case UnsatisfiedUsage(usage) =>
      !IsIdentifier(lock.projects, usage) && exists p | p in lock.projects :: usage in p.usages
    case InvalidSource(source) =>
      !(located(source) && DigestFits(source)) && exists p | p in lock.projects :: source in p.sources
    case _ => CollisionTrue(lock.projects, e)
  }

  /** `Lock::validate`: the four checks in turn; the error is the first one's, and true. */
  method Validate(located: Source -> bool, lock: Lock) returns (r: Verdict)
    ensures r.Valid? <==> Validates(located, lock)
    ensures r.Invalid? ==> ErrorTrue(located, lock, r.error)
    ensures r.Invalid? ==> (r.error.UnsupportedVersion? <==> lock.lockVersion != CURRENT_LOCK_VERSION)
    ensures r.Invalid? && r.error.UnsatisfiedUsage? ==> NoCollisions(lock.projects)
    ensures r.Invalid? && r.error.InvalidSource? ==> NoCollisions(lock.projects) && UsagesSatisfied(lock.projects)
  {
    if lock.lockVersion != CURRENT_LOCK_VERSION {
      return Invalid(UnsupportedVersion(lock.lockVersion));
    }
    r := CheckNameCollision(lock.projects);
    if r.Invalid? {
      return;
    }
    r := ValidateUsages(lock.projects);
    if r.Invalid? {
      return;
    }
    r := ValidateSources(located, lock.projects);
  }
}
