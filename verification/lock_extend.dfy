/** Building a lockfile from input projects and a solution (core/src/commands/lock.rs). */
module LockExtend {
  import opened Common
  import opened Lockfile

  datatype Info = Info(publisher: Option<string>, name: string, version: string, usage: seq<string>)

  /** What reading a project yields; `exports` are the keys of its symbol index. */
  datatype Readable = Readable(
    info: Result<Option<Info>, string>,
    exports: Result<Option<seq<string>>, string>,
    sources: Result<seq<Source>, string>)

  datatype Input = Input(identifiers: Option<seq<string>>, project: Readable)

  datatype Dependency = Dependency(iri: string, project: Readable)

  datatype LockError =
    | ReadFailed(message: string)
    | IncompleteProject(who: string, field: string)
    | InvalidUsage
    | Solver
    | NameCollision(symbol: string, pr1: Project, pr2: Project)
    | SelfNameCollision(symbol: string, project: Project)

  datatype LockOutcome = LockOutcome(lock: Lock, dependencies: seq<Dependency>)

  /** Validation of project information, the solver and the string hash: any functions. */
  datatype World = World(validates: Info -> bool, solve: seq<string> -> Option<seq<Dependency>>, hash: string -> int)

  // ---- what is built ----

  function BuildFrom(info: Info, exports: seq<string>, identifiers: seq<string>, sources: seq<Source>): Project {
    Project(info.publisher, info.name, info.version, exports, identifiers, info.usage, sources)
  }

  predicate Reads(provided: set<string>, d: Dependency) {
    && d.project.info.Ok? && d.project.info.value.Some?
    && d.project.exports.Ok? && d.project.exports.value.Some?
    && (d.iri in provided || d.project.sources.Ok?)
  }

  function Build(provided: set<string>, d: Dependency): Project
    requires Reads(provided, d)
  {
    BuildFrom(d.project.info.value.value, d.project.exports.value.value, [d.iri],
              if d.iri in provided then [] else d.project.sources.value)
  }

  function Firsts(ps: seq<Project>): set<string> {
    set p | p in ps && p.identifiers != [] :: p.identifiers[0]
  }

  /** The projects `ps` and every dependency whose IRI is not in `known`. */
  function Extend(ps: seq<Project>, known: set<string>, provided: set<string>, deps: seq<Dependency>): seq<Project>
    requires forall d | d in deps :: Reads(provided, d)
  {
    if deps == [] then ps
    else
      var n := |deps| - 1;
      var before := Extend(ps, known, provided, deps[..n]);
      if deps[n].iri in known then before else before + [Build(provided, deps[n])]
  }

  // ---- symbols by hash ----

  /** Every hash leads to a project that has it. */
  ghost predicate HashesOwned(hash: string -> int, symbols: map<int, nat>, ps: seq<Project>) {
    forall h | h in symbols :: symbols[h] < |ps| && exists s | s in ps[symbols[h]].exports :: hash(s) == h
  }

  /** Every export's hash is there. */
  ghost predicate ExportsHashed(hash: string -> int, symbols: map<int, nat>, ps: seq<Project>) {
    forall i, s | 0 <= i < |ps| && s in ps[i].exports :: hash(s) in symbols
  }

  /** `symbols` maps the hash of every export of `ps`, and no other, to a project that exports one with that hash. */
  ghost predicate Recorded(hash: string -> int, symbols: map<int, nat>, ps: seq<Project>) {
    HashesOwned(hash, symbols, ps) && ExportsHashed(hash, symbols, ps) && NoRepeats(AllExports(ps))
  }

  /** `symbol` is exported at two places, or two symbols with its hash are. */
  ghost predicate HashTwice(hash: string -> int, exports: seq<string>, symbol: string) {
    exists x, y | 0 <= x < y < |exports| :: hash(exports[x]) == hash(symbol) && exports[y] == symbol
  }

  lemma AllExportsAppend(ps: seq<Project>, p: Project)
    ensures AllExports(ps + [p]) == AllExports(ps) + p.exports
  {
    assert (ps + [p])[..|ps|] == ps;
  }

  lemma {:induction false} ExportPosition(ps: seq<Project>, i: nat, s: string)
    requires i < |ps| && s in ps[i].exports
    ensures s in AllExports(ps)
  {
    var n := |ps| - 1;
    if i < n {
      ExportPosition(ps[..n], i, s);
    }
  }

  /** `symbols'` is `symbols` with the first `j` exports recorded as those of project `n`, all under new hashes. */
  ghost predicate Recording(hash: string -> int, exports: seq<string>, n: nat, j: nat, symbols: map<int, nat>,
      symbols': map<int, nat>)
    requires j <= |exports|
  {
    && symbols.Keys <= symbols'.Keys
    && (forall h | h in symbols' && symbols'[h] < n :: h in symbols && symbols'[h] == symbols[h])
    && (forall h | h in symbols' && symbols'[h] >= n ::
          symbols'[h] == n && exists x | 0 <= x < j :: hash(exports[x]) == h)
    && (forall x | 0 <= x < j :: hash(exports[x]) in symbols' && hash(exports[x]) !in symbols)
    && (forall x, y | 0 <= x < y < j :: hash(exports[x]) != hash(exports[y]))
  }

  lemma RecordingNext(hash: string -> int, exports: seq<string>, n: nat, j: nat, symbols: map<int, nat>,
      symbols': map<int, nat>)
    requires j < |exports| && Recording(hash, exports, n, j, symbols, symbols') && hash(exports[j]) !in symbols'
    ensures Recording(hash, exports, n, j + 1, symbols, symbols'[hash(exports[j]) := n])
  {
    var h := hash(exports[j]);
    var next := symbols'[h := n];
    forall g | g in next && next[g] >= n
      ensures next[g] == n && exists x | 0 <= x < j + 1 :: hash(exports[x]) == g
    {
      if g == h {
        assert hash(exports[j]) == g;
      } else {
        var x :| 0 <= x < j && hash(exports[x]) == g;
      }
    }
    assert h !in symbols.Keys;
  }

  /** What a hash that is already there says. */
  lemma RecordingClash(hash: string -> int, ps: seq<Project>, exports: seq<string>, j: nat, symbols: map<int, nat>,
      symbols': map<int, nat>)
    requires Recorded(hash, symbols, ps)
    requires j < |exports| && Recording(hash, exports, |ps|, j, symbols, symbols') && hash(exports[j]) in symbols'
    ensures var at := symbols'[hash(exports[j])];
            && at <= |ps|
            && (at < |ps| ==> exists s | s in ps[at].exports :: hash(s) == hash(exports[j]))
            && (at == |ps| ==> HashTwice(hash, exports, exports[j]))
  {
    var h := hash(exports[j]);
    if symbols'[h] >= |ps| {
      var x :| 0 <= x < j && hash(exports[x]) == h;
      assert HashTwice(hash, exports, exports[j]);
    }
  }

  /** Record the exports of `p` as project number `|ps|`, or say which symbol clashes with which project. */
  method RecordExports(hash: string -> int, ghost ps: seq<Project>, n: nat, p: Project, symbols: map<int, nat>)
    returns (clash: Option<(string, nat)>, symbols': map<int, nat>)
    requires n == |ps| && Recorded(hash, symbols, ps)
    ensures clash.None? ==> Recorded(hash, symbols', ps + [p])
    ensures clash.Some? ==> clash.value.0 in p.exports && clash.value.1 <= n
    ensures clash.Some? && clash.value.1 < n ==>
              exists s | s in ps[clash.value.1].exports :: hash(s) == hash(clash.value.0)
    ensures clash.Some? && clash.value.1 == n ==> HashTwice(hash, p.exports, clash.value.0)
  {
    symbols' := symbols;
    for j := 0 to |p.exports|
      invariant Recording(hash, p.exports, n, j, symbols, symbols')
    {
      var s := p.exports[j];
      if hash(s) in symbols' {
        RecordingClash(hash, ps, p.exports, j, symbols, symbols');
        return Some((s, symbols'[hash(s)])), symbols';
      }
      RecordingNext(hash, p.exports, n, j, symbols, symbols');
      symbols' := symbols'[hash(s) := n];
    }
    clash := None;
    RecordedAfter(hash, ps, p, symbols, symbols');
  }

  lemma HashesOwnedAfter(hash: string -> int, ps: seq<Project>, p: Project, symbols: map<int, nat>,
      symbols': map<int, nat>)
    requires HashesOwned(hash, symbols, ps)
    requires Recording(hash, p.exports, |ps|, |p.exports|, symbols, symbols')
    ensures HashesOwned(hash, symbols', ps + [p])
  {
    var qs := ps + [p];
    forall h | h in symbols'
      ensures symbols'[h] < |qs| && exists s | s in qs[symbols'[h]].exports :: hash(s) == h
    {
      if symbols'[h] < |ps| {
        var s :| s in ps[symbols[h]].exports && hash(s) == h;
        assert s in qs[symbols'[h]].exports;
      } else {
        var x :| 0 <= x < |p.exports| && hash(p.exports[x]) == h;
        assert p.exports[x] in qs[symbols'[h]].exports;
      }
    }
  }

  lemma ExportsHashedAfter(hash: string -> int, ps: seq<Project>, p: Project, symbols: map<int, nat>,
      symbols': map<int, nat>)
    requires ExportsHashed(hash, symbols, ps)
    requires Recording(hash, p.exports, |ps|, |p.exports|, symbols, symbols')
    ensures ExportsHashed(hash, symbols', ps + [p])
  {
    var qs := ps + [p];
    forall i, s | 0 <= i < |qs| && s in qs[i].exports
      ensures hash(s) in symbols'
    {
      if i < |ps| {
        assert qs[i] == ps[i];
        assert hash(s) in symbols.Keys;
      } else {
        assert qs[i] == p;
        var x :| 0 <= x < |p.exports| && p.exports[x] == s;
        assert hash(p.exports[x]) in symbols';
      }
    }
  }

  lemma RecordedAfter(hash: string -> int, ps: seq<Project>, p: Project, symbols: map<int, nat>,
      symbols': map<int, nat>)
    requires Recorded(hash, symbols, ps)
    requires Recording(hash, p.exports, |ps|, |p.exports|, symbols, symbols')
    ensures Recorded(hash, symbols', ps + [p])
  {
    HashesOwnedAfter(hash, ps, p, symbols, symbols');
    ExportsHashedAfter(hash, ps, p, symbols, symbols');
    AllExportsAppend(ps, p);
    ExportsDisjoint(hash, ps, p, symbols);
  }

  lemma ExportsDisjoint(hash: string -> int, ps: seq<Project>, p: Project, symbols: map<int, nat>)
    requires Recorded(hash, symbols, ps)
    requires forall x | 0 <= x < |p.exports| :: hash(p.exports[x]) !in symbols
    requires forall x, y | 0 <= x < y < |p.exports| :: hash(p.exports[x]) != hash(p.exports[y])
    ensures NoRepeats(AllExports(ps) + p.exports)
  {
    var before := AllExports(ps);
    forall s | s in before
      ensures hash(s) in symbols
    {
      ExportOwner(ps, s);
    }
    forall x, y | 0 <= x < y < |before + p.exports|
      ensures (before + p.exports)[x] != (before + p.exports)[y]
    {
      if x < |before| <= y {
        assert before[x] in before;
        assert hash(before[x]) in symbols && hash(p.exports[y - |before|]) !in symbols;
      } else if |before| <= x {
        assert hash(p.exports[x - |before|]) != hash(p.exports[y - |before|]);
      }
    }
  }

  lemma {:induction false} ExportOwner(ps: seq<Project>, s: string)
    requires s in AllExports(ps)
    ensures exists i | 0 <= i < |ps| :: s in ps[i].exports
  {
    var n := |ps| - 1;
    if s !in ps[n].exports {
      ExportOwner(ps[..n], s);
      var i :| 0 <= i < n && s in ps[..n][i].exports;
      assert ps[i] == ps[..n][i];
    }
  }

  lemma TwiceAcross(hash: string -> int, before: seq<string>, exports: seq<string>, s: string, symbol: string)
    requires s in before && symbol in exports && hash(s) == hash(symbol)
    ensures HashTwice(hash, before + exports, symbol)
  {
    var x :| 0 <= x < |before| && before[x] == s;
    var y :| 0 <= y < |exports| && exports[y] == symbol;
    var all := before + exports;
    assert all[x] == s && all[|before| + y] == symbol;
  }

  lemma TwiceWithin(hash: string -> int, before: seq<string>, exports: seq<string>, symbol: string)
    requires HashTwice(hash, exports, symbol)
    ensures HashTwice(hash, before + exports, symbol)
  {
    var x, y :| 0 <= x < y < |exports| && hash(exports[x]) == hash(symbol) && exports[y] == symbol;
    var all := before + exports;
    assert all[|before| + x] == exports[x] && all[|before| + y] == symbol;
  }

  /** A clash the code found is one in the list with `p` added. */
  lemma ClashIsTwice(hash: string -> int, ps: seq<Project>, p: Project, symbol: string, at: nat)
    requires symbol in p.exports && at <= |ps|
    requires at < |ps| ==> exists s | s in ps[at].exports :: hash(s) == hash(symbol)
    requires at == |ps| ==> HashTwice(hash, p.exports, symbol)
    ensures HashTwice(hash, AllExports(ps + [p]), symbol)
  {
    AllExportsAppend(ps, p);
    if at < |ps| {
      var s :| s in ps[at].exports && hash(s) == hash(symbol);
      ExportPosition(ps, at, s);
      TwiceAcross(hash, AllExports(ps), p.exports, s, symbol);
    } else {
      TwiceWithin(hash, AllExports(ps), p.exports, symbol);
    }
  }

  // ---- do_lock_extend ----

  /** The projects a collision names export the symbol, or one with its hash. */
  ghost predicate Shared(hash: string -> int, e: LockError) {
    match e
    case NameCollision(symbol, pr1, pr2) =>
      symbol in pr2.exports && exists s | s in pr1.exports :: hash(s) == hash(symbol)
    case SelfNameCollision(symbol, project) => HashTwice(hash, project.exports, symbol)
    case _ => true
  }

  /** The hash tells these names apart. */
  ghost predicate Separates(hash: string -> int, names: seq<string>) {
    forall a, b | a in names && b in names :: hash(a) == hash(b) ==> a == b
  }

  predicate IsCollision(e: LockError) { e.NameCollision? || e.SelfNameCollision? }

  /** The collision is one that old project `i` has with one before it, or within itself. */
  ghost predicate OldClashAt(w: World, ps: seq<Project>, i: nat, e: LockError) {
    && i < |ps| && e.NameCollision? && e.pr2 == ps[i] && e.pr1 in ps[..i + 1]
    && Shared(w.hash, e) && HashTwice(w.hash, AllExports(ps[..i + 1]), e.symbol)
  }

  /** The collision is one that dependency `k`, which is new, has with the list so far, or within itself. */
  ghost predicate NewClashAt(w: World, ps: seq<Project>, known: set<string>, provided: set<string>,
      deps: seq<Dependency>, k: nat, e: LockError)
  {
    && k < |deps| && (forall d | d in deps[..k + 1] :: Reads(provided, d)) && deps[k].iri !in known
    && Grown(ps, known, provided, deps, k, e)
    && IsCollision(e) && Shared(w.hash, e)
    && HashTwice(w.hash, AllExports(Extend(ps, known, provided, deps[..k + 1])), e.symbol)
  }

  ghost predicate Grown(ps: seq<Project>, known: set<string>, provided: set<string>, deps: seq<Dependency>, k: nat,
      e: LockError)
    requires k < |deps| && forall d | d in deps[..k + 1] :: Reads(provided, d)
  {
    assert deps[k] == deps[..k + 1][k] && forall d | d in deps[..k] :: d in deps[..k + 1];
    match e
    case NameCollision(_, pr1, pr2) =>
      pr2 == Build(provided, deps[k]) && pr1 in Extend(ps, known, provided, deps[..k])
    case SelfNameCollision(_, project) => project == Build(provided, deps[k])
    case _ => false
  }

  /** The collision is where it says it is. */
  ghost predicate ClashesIn(w: World, lock: Lock, provided: set<string>, deps: seq<Dependency>, e: LockError) {
    || (exists i: nat :: OldClashAt(w, lock.projects, i, e))
    || (exists k: nat :: NewClashAt(w, lock.projects, Firsts(lock.projects), provided, deps, k, e))
  }

  /** Why a dependency cannot be read: the first of information, metadata and sources that is missing or fails. */
  predicate UnreadableWith(provided: set<string>, d: Dependency, e: LockError) {
    match d.project.info
    case Err(m) => e == ReadFailed(m)
    case Ok(None) => e == IncompleteProject(d.iri, "info")
    case Ok(Some(_)) =>
      match d.project.exports
      case Err(m) => e == ReadFailed(m)
      case Ok(None) => e == IncompleteProject(d.iri, "meta")
      case Ok(Some(_)) => d.iri !in provided && d.project.sources.Err? && e == ReadFailed(d.project.sources.error)
  }

  /** A dependency can be locked exactly if no reading error is true of it. */
  lemma ReadsIff(provided: set<string>, d: Dependency)
    ensures Reads(provided, d) <==> forall e :: !UnreadableWith(provided, d, e)
  {
    if !Reads(provided, d) {
      var e := match d.project.info
               case Err(m) => ReadFailed(m)
               case Ok(None) => IncompleteProject(d.iri, "info")
               case Ok(Some(_)) =>
                 match d.project.exports
                 case Err(m) => ReadFailed(m)
                 case Ok(None) => IncompleteProject(d.iri, "meta")
                 case Ok(Some(_)) => ReadFailed(d.project.sources.error);
      assert UnreadableWith(provided, d, e);
    }
  }

  lemma FirstsAppend(ps: seq<Project>, p: Project)
    ensures Firsts(ps + [p]) == Firsts(ps) + if p.identifiers == [] then {} else {p.identifiers[0]}
  {
    assert forall q | q in ps + [p] :: q in ps || q == p;
    assert p in ps + [p] && forall q | q in ps :: q in ps + [p];
  }

  /** A clash among the old projects is one in the list up to the project that has it. */
  lemma OldClash(hash: string -> int, projects: seq<Project>, i: nat, symbol: string, at: nat)
    requires i < |projects| && symbol in projects[i].exports && at <= i
    requires at < i ==> exists s | s in projects[..i][at].exports :: hash(s) == hash(symbol)
    requires at == i ==> HashTwice(hash, projects[i].exports, symbol)
    ensures HashTwice(hash, AllExports(projects[..i + 1]), symbol)
    ensures Shared(hash, LockError.NameCollision(symbol, projects[at], projects[i]))
    ensures projects[at] in projects[..i + 1]
  {
    assert projects[at] == projects[..i + 1][at];
    ClashIsTwice(hash, projects[..i], projects[i], symbol, at);
    assert projects[..i + 1] == projects[..i] + [projects[i]];
  }

  method IndexOld(w: World, projects: seq<Project>)
    returns (symbols: map<int, nat>, known: set<string>, error: Option<LockError>)
    ensures error.None? ==> Recorded(w.hash, symbols, projects) && known == Firsts(projects)
    ensures error.Some? ==> exists i: nat :: OldClashAt(w, projects, i, error.value)
  {
    symbols, known := map[], {};
    for i := 0 to |projects|
      invariant Recorded(w.hash, symbols, projects[..i])
      invariant known == Firsts(projects[..i])
    {
      var p := projects[i];
      FirstsAppend(projects[..i], p);
      assert projects[..i + 1] == projects[..i] + [p];
      if p.identifiers != [] {
        known := known + {p.identifiers[0]};
      }
      var clash;
      clash, symbols := RecordExports(w.hash, projects[..i], i, p, symbols);
      if clash.Some? {
        OldClash(w.hash, projects, i, clash.value.0, clash.value.1);
        error := Some(LockError.NameCollision(clash.value.0, projects[clash.value.1], p));
        assert OldClashAt(w, projects, i, error.value);
        return;
      }
    }
    assert projects[..|projects|] == projects;
    error := None;
  }

  method ReadDependency(provided: set<string>, d: Dependency) returns (r: Result<Project, LockError>)
    ensures r.Ok? <==> Reads(provided, d)
    ensures r.Ok? ==> r.value == Build(provided, d)
    ensures r.Err? ==> UnreadableWith(provided, d, r.error)
  {
    if d.project.info.Err? {
      return Err(ReadFailed(d.project.info.error));
    }
    if d.project.info.value.None? {
      return Err(IncompleteProject(d.iri, "info"));
    }
    if d.project.exports.Err? {
      return Err(ReadFailed(d.project.exports.error));
    }
    if d.project.exports.value.None? {
      return Err(IncompleteProject(d.iri, "meta"));
    }
    if d.iri !in provided && d.project.sources.Err? {
      return Err(ReadFailed(d.project.sources.error));
    }
    r := Ok(Build(provided, d));
  }

  lemma ExtendByOne(ps: seq<Project>, known: set<string>, provided: set<string>, deps: seq<Dependency>, k: nat)
    requires k < |deps| && forall d | d in deps[..k + 1] :: Reads(provided, d)
    ensures Reads(provided, deps[k]) && forall d | d in deps[..k] :: Reads(provided, d)
    ensures Extend(ps, known, provided, deps[..k + 1])
         == Extend(ps, known, provided, deps[..k]) + if deps[k].iri in known then [] else [Build(provided, deps[k])]
  {
    var next := deps[..k + 1];
    assert next[k] in next && next[..k] == deps[..k];
    assert forall d | d in deps[..k] :: d in next;
  }

  /** One dependency is added, unless an old project leads with its IRI. */
  method AddDependency(w: World, projects: seq<Project>, known: set<string>, provided: set<string>,
      symbols: map<int, nat>, d: Dependency)
    returns (r: Result<(seq<Project>, map<int, nat>), LockError>)
    requires Recorded(w.hash, symbols, projects)
    ensures r.Ok? ==>
              && Reads(provided, d) && Recorded(w.hash, r.value.1, r.value.0)
              && r.value.0 == projects + if d.iri in known then [] else [Build(provided, d)]
    ensures r.Err? && Reads(provided, d) ==>
              && IsCollision(r.error) && d.iri !in known && Shared(w.hash, r.error)
              && HashTwice(w.hash, AllExports(projects + [Build(provided, d)]), r.error.symbol)
              && (r.error.NameCollision? ==> r.error.pr1 in projects && r.error.pr2 == Build(provided, d))
              && (r.error.SelfNameCollision? ==> r.error.project == Build(provided, d))
    ensures r.Err? && !Reads(provided, d) ==> UnreadableWith(provided, d, r.error)
  {
    var read := ReadDependency(provided, d);
    if read.Err? {
      return Err(read.error);
    }
    if d.iri in known {
      assert projects + [] == projects;
      return Ok((projects, symbols));
    }
    var newIdx := |projects|;
    var clash, symbols' := RecordExports(w.hash, projects, newIdx, read.value, symbols);
    if clash.Some? {
      ClashIsTwice(w.hash, projects, read.value, clash.value.0, clash.value.1);
      if clash.value.1 == newIdx {
        return Err(SelfNameCollision(clash.value.0, read.value));
      }
      return Err(LockError.NameCollision(clash.value.0, projects[clash.value.1], read.value));
    }
    r := Ok((projects + [read.value], symbols'));
  }

  /** Dependency `k` is the first that cannot be read, and that is why. */
  ghost predicate StopsAt(provided: set<string>, deps: seq<Dependency>, k: nat, e: LockError) {
    && k < |deps| && (forall d | d in deps[..k] :: Reads(provided, d))
    && !Reads(provided, deps[k]) && UnreadableWith(provided, deps[k], e)
  }

  /** What `AddDependency` says of a failure, in terms of the whole list. */
  lemma AddFailsAt(w: World, ps: seq<Project>, known: set<string>, provided: set<string>, deps: seq<Dependency>, k: nat,
      e: LockError)
    requires k < |deps| && forall d | d in deps[..k] :: Reads(provided, d)
    requires var d, projects := deps[k], Extend(ps, known, provided, deps[..k]);
             if Reads(provided, d) then
               && IsCollision(e) && d.iri !in known && Shared(w.hash, e)
               && HashTwice(w.hash, AllExports(projects + [Build(provided, d)]), e.symbol)
               && (e.NameCollision? ==> e.pr1 in projects && e.pr2 == Build(provided, d))
               && (e.SelfNameCollision? ==> e.project == Build(provided, d))
             else UnreadableWith(provided, d, e)
    ensures NewClashAt(w, ps, known, provided, deps, k, e) || StopsAt(provided, deps, k, e)
  {
    if Reads(provided, deps[k]) {
      assert forall d | d in deps[..k + 1] :: d in deps[..k] || d == deps[k];
      ExtendByOne(ps, known, provided, deps, k);
      assert NewClashAt(w, ps, known, provided, deps, k, e);
    }
  }

  method AddDependencies(w: World, ps: seq<Project>, known: set<string>, provided: set<string>,
      symbols: map<int, nat>, deps: seq<Dependency>)
    returns (r: Result<seq<Project>, LockError>)
    requires Recorded(w.hash, symbols, ps)
    ensures r.Ok? ==>
              && (forall d | d in deps :: Reads(provided, d))
              && r.value == Extend(ps, known, provided, deps)
              && ps <= r.value
              && NoRepeats(AllExports(r.value))
    ensures r.Err? ==> exists k: nat ::
              NewClashAt(w, ps, known, provided, deps, k, r.error) || StopsAt(provided, deps, k, r.error)
  {
    var projects, symbols' := ps, symbols;
    for k := 0 to |deps|
      invariant forall d | d in deps[..k] :: Reads(provided, d)
      invariant projects == Extend(ps, known, provided, deps[..k])
      invariant ps <= projects
      invariant Recorded(w.hash, symbols', projects)
    {
      var d := deps[k];
      assert d in deps && forall e | e in deps[..k + 1] :: e in deps[..k] || e == d;
      if Reads(provided, d) {
        ExtendByOne(ps, known, provided, deps, k);
      }
      var added := AddDependency(w, projects, known, provided, symbols', d);
      if added.Err? {
        AddFailsAt(w, ps, known, provided, deps, k, added.error);
        return Err(added.error);
      }
      projects, symbols' := added.value.0, added.value.1;
    }
    assert deps[..|deps|] == deps;
    r := Ok(projects);
  }

  /**
   * The solution is added to the lock. On success the old projects are kept as a prefix, the
   * new ones are exactly the dependencies whose IRI no old project leads with, and all exports
   * differ, within and across projects, whatever the hash function. A collision is reported
   * only where a hash occurs twice, and nothing else fails once everything can be read.
   */
  method DoLockExtend(w: World, lock: Lock, usages: seq<string>, provided: set<string>)
    returns (r: Result<LockOutcome, LockError>)
    ensures r.Ok? ==>
              && w.solve(usages).Some?
              && r.value.dependencies == w.solve(usages).value
              && (forall d | d in r.value.dependencies :: Reads(provided, d))
              && r.value.lock.lockVersion == lock.lockVersion
              && r.value.lock.projects == Extend(lock.projects, Firsts(lock.projects), provided, r.value.dependencies)
              && lock.projects <= r.value.lock.projects
              && NoRepeats(AllExports(r.value.lock.projects))
    ensures w.solve(usages).None? ==> r == Err(Solver)
    ensures r.Err? && w.solve(usages).Some? ==>
              || ClashesIn(w, lock, provided, w.solve(usages).value, r.error)
              || exists k: nat :: StopsAt(provided, w.solve(usages).value, k, r.error)
  {
    var solution := w.solve(usages);
    if solution.None? {
      return Err(Solver);
    }
    var dependencies := solution.value;
    var symbols, known, error := IndexOld(w, lock.projects);
    if error.Some? {
      return Err(error.value);
    }
    var projects := AddDependencies(w, lock.projects, known, provided, symbols, dependencies);
    if projects.Err? {
      return Err(projects.error);
    }
    r := Ok(LockOutcome(lock.(projects := projects.value), dependencies));
  }

  /** With a hash that tells the exports apart, what is reported is a symbol exported twice. */
  lemma CollisionIsReal(hash: string -> int, exports: seq<string>, symbol: string)
    requires Separates(hash, exports) && HashTwice(hash, exports, symbol)
    ensures Twice(exports, symbol)
  {
    var x, y :| 0 <= x < y < |exports| && hash(exports[x]) == hash(symbol) && exports[y] == symbol;
    assert exports[x] == symbol;
  }

  lemma PartRepeats(hash: string -> int, part: seq<Project>, whole: seq<Project>, symbol: string)
    requires Separates(hash, AllExports(whole)) && part <= whole && HashTwice(hash, AllExports(part), symbol)
    ensures !NoRepeats(AllExports(whole))
  {
    assert whole[..|part|] == part;
    ExportsPrefix(whole, |part|);
    assert forall x | x in AllExports(part) :: x in AllExports(whole);
    CollisionIsReal(hash, AllExports(part), symbol);
    TwiceStays(AllExports(part), AllExports(whole), symbol);
  }

  lemma OldClashRepeats(w: World, lock: Lock, provided: set<string>, deps: seq<Dependency>, i: nat, e: LockError)
    requires OldClashAt(w, lock.projects, i, e) && forall d | d in deps :: Reads(provided, d)
    requires Separates(w.hash, AllExports(Extend(lock.projects, Firsts(lock.projects), provided, deps)))
    ensures !NoRepeats(AllExports(Extend(lock.projects, Firsts(lock.projects), provided, deps)))
  {
    var known := Firsts(lock.projects);
    ExtendPrefix(lock.projects, known, provided, deps, 0);
    assert deps[..0] == [];
    PartRepeats(w.hash, lock.projects[..i + 1], Extend(lock.projects, known, provided, deps), e.symbol);
  }

  lemma NewClashRepeats(w: World, lock: Lock, provided: set<string>, deps: seq<Dependency>, k: nat, e: LockError)
    requires NewClashAt(w, lock.projects, Firsts(lock.projects), provided, deps, k, e)
    requires forall d | d in deps :: Reads(provided, d)
    requires Separates(w.hash, AllExports(Extend(lock.projects, Firsts(lock.projects), provided, deps)))
    ensures !NoRepeats(AllExports(Extend(lock.projects, Firsts(lock.projects), provided, deps)))
  {
    var known := Firsts(lock.projects);
    var part := Extend(lock.projects, known, provided, deps[..k + 1]);
    var whole := Extend(lock.projects, known, provided, deps);
    ExtendPrefix(lock.projects, known, provided, deps, k + 1);
    PartRepeats(w.hash, part, whole, e.symbol);
  }

  /** ... and the whole list then has a repeat: with such a hash, extending fails only where it must. */
  lemma ClashMeansRepeat(w: World, lock: Lock, provided: set<string>, deps: seq<Dependency>, e: LockError)
    requires ClashesIn(w, lock, provided, deps, e) && forall d | d in deps :: Reads(provided, d)
    requires Separates(w.hash, AllExports(Extend(lock.projects, Firsts(lock.projects), provided, deps)))
    ensures !NoRepeats(AllExports(Extend(lock.projects, Firsts(lock.projects), provided, deps)))
  {
    if i: nat :| OldClashAt(w, lock.projects, i, e) {
      OldClashRepeats(w, lock, provided, deps, i, e);
    } else {
      var k: nat :| NewClashAt(w, lock.projects, Firsts(lock.projects), provided, deps, k, e);
      NewClashRepeats(w, lock, provided, deps, k, e);
    }
  }

  /** Going on with more dependencies only adds projects at the end. */
  lemma {:induction false} ExtendPrefix(ps: seq<Project>, known: set<string>, provided: set<string>,
      deps: seq<Dependency>, k: nat)
    requires k <= |deps| && forall d | d in deps :: Reads(provided, d)
    ensures forall d | d in deps[..k] :: Reads(provided, d)
    ensures Extend(ps, known, provided, deps[..k]) <= Extend(ps, known, provided, deps)
  {
    if k < |deps| {
      var init := deps[..|deps| - 1];
      assert forall d | d in init :: d in deps;
      ExtendPrefix(ps, known, provided, init, k);
      assert init[..k] == deps[..k];
    } else {
      assert deps[..k] == deps;
    }
  }

  /** How many of `deps` are new. */
  function News(known: set<string>, deps: seq<Dependency>): nat {
    if deps == [] then 0
    else News(known, deps[..|deps| - 1]) + if deps[|deps| - 1].iri in known then 0 else 1
  }

  lemma {:induction false} ExtendLength(ps: seq<Project>, known: set<string>, provided: set<string>,
      deps: seq<Dependency>)
    requires forall d | d in deps :: Reads(provided, d)
    ensures |Extend(ps, known, provided, deps)| == |ps| + News(known, deps)
  {
    if deps != [] {
      assert forall d | d in deps[..|deps| - 1] :: d in deps;
      ExtendLength(ps, known, provided, deps[..|deps| - 1]);
    }
  }

  /** The old projects come first, then the new dependencies in order, each once for each time it is there. */
  lemma ExtendIs(ps: seq<Project>, known: set<string>, provided: set<string>, deps: seq<Dependency>, k: nat)
    requires k < |deps| && forall d | d in deps :: Reads(provided, d)
    ensures var all := Extend(ps, known, provided, deps);
            && |all| == |ps| + News(known, deps) && ps <= all
            && (deps[k].iri !in known ==>
                  var at := |ps| + News(known, deps[..k]);
                  at < |all| && all[at] == Build(provided, deps[k]))
  {
    ExtendLength(ps, known, provided, deps);
    ExtendPrefix(ps, known, provided, deps, 0);
    assert deps[..0] == [];
    ExtendPrefix(ps, known, provided, deps, k);
    ExtendPrefix(ps, known, provided, deps, k + 1);
    ExtendLength(ps, known, provided, deps[..k]);
    ExtendByOne(ps, known, provided, deps, k);
  }

  /** A locked dependency: its own information and exports, its IRI as its identifier, and sources unless provided. */
  lemma LockedIs(provided: set<string>, d: Dependency, info: Info, exports: seq<string>)
    requires Reads(provided, d) && d.project.info == Ok(Some(info)) && d.project.exports == Ok(Some(exports))
    ensures var p := Build(provided, d);
            && p.publisher == info.publisher && p.name == info.name && p.version == info.version
            && p.usages == info.usage && p.exports == exports && p.identifiers == [d.iri]
            && (d.iri in provided ==> p.sources == [])
            && (d.iri !in provided ==> d.project.sources == Ok(p.sources))
  {
  }

  // ---- do_lock_projects ----

  /** What the solver promises: one project for each IRI, every request, and every usage of what it chose. */
  ghost predicate Solves(requested: seq<string>, deps: seq<Dependency>) {
    && (forall i, j | 0 <= i < j < |deps| :: deps[i].iri != deps[j].iri)
    && (forall u | u in requested :: exists d | d in deps :: d.iri == u)
    && (forall d, u | d in deps && d.project.info.Ok? && d.project.info.value.Some? &&
          u in d.project.info.value.value.usage ::
          exists e | e in deps :: e.iri == u)
  }

  lemma {:induction false} ExtendFirsts(ps: seq<Project>, known: set<string>, provided: set<string>,
      deps: seq<Dependency>)
    requires forall d | d in deps :: Reads(provided, d)
    requires FirstsDiffer(ps) && known == Firsts(ps)
    requires forall i, j | 0 <= i < j < |deps| :: deps[i].iri != deps[j].iri
    ensures FirstsDiffer(Extend(ps, known, provided, deps))
    ensures forall p | p in Extend(ps, known, provided, deps) :: p in ps || exists d | d in deps ::
              d.iri !in known && First(p) == Some(d.iri)
  {
    if deps != [] {
      var n := |deps| - 1;
      var init := deps[..n];
      assert forall d | d in init :: d in deps;
      ExtendFirsts(ps, known, provided, init);
      var before := Extend(ps, known, provided, init);
      if deps[n].iri !in known {
        var p := Build(provided, deps[n]);
        forall i | 0 <= i < |before|
          ensures First(before[i]) != First(p)
        {
          assert before[i] in before;
          if before[i] in ps {
            assert First(before[i]).Some? ==> First(before[i]).value in known;
          }
        }
        assert deps[n] in deps && First(p) == Some(deps[n].iri);
      }
    }
  }

  /** Every IRI of the solution leads some project, old or new. */
  lemma {:induction false} ExtendCovers(ps: seq<Project>, provided: set<string>, deps: seq<Dependency>, d: Dependency)
    requires d in deps && forall e | e in deps :: Reads(provided, e)
    ensures IsIdentifier(Extend(ps, Firsts(ps), provided, deps), d.iri)
  {
    var known, n := Firsts(ps), |deps| - 1;
    var all := Extend(ps, known, provided, deps);
    ExtendPrefix(ps, known, provided, deps, n);
    if d == deps[n] && d.iri !in known {
      assert all[|all| - 1] == Build(provided, d) && all[|all| - 1] in all;
    } else if d.iri in known {
      var p :| p in ps && p.identifiers != [] && p.identifiers[0] == d.iri;
      ExtendPrefix(ps, known, provided, deps, 0);
      assert deps[..0] == [] && ps <= all;
      var i :| 0 <= i < |ps| && ps[i] == p;
      assert all[i] == p && p in all;
    } else {
      assert d in deps[..n];
      ExtendCovers(ps, provided, deps[..n], d);
      var before := Extend(ps, known, provided, deps[..n]);
      var p :| p in before && d.iri in p.identifiers;
      assert p in all;
    }
  }

  /** Every usage of an extended lock is one of an old project or of a dependency. */
  lemma {:induction false} ExtendUsages(ps: seq<Project>, known: set<string>, provided: set<string>,
      deps: seq<Dependency>, p: Project)
    requires forall d | d in deps :: Reads(provided, d)
    requires p in Extend(ps, known, provided, deps)
    ensures p in ps || exists d | d in deps :: p == Build(provided, d)
  {
    if deps != [] {
      var n := |deps| - 1;
      var init := deps[..n];
      assert forall d | d in init :: d in deps;
      if p in Extend(ps, known, provided, init) {
        ExtendUsages(ps, known, provided, init, p);
      } else {
        assert deps[n] in deps && p == Build(provided, deps[n]);
      }
    }
  }

  lemma ExtendedLockFits(ps: seq<Project>, requested: seq<string>, provided: set<string>, deps: seq<Dependency>)
    requires forall d | d in deps :: Reads(provided, d)
    requires Solves(requested, deps) && FirstsDiffer(ps)
    requires forall p, u | p in ps && u in p.usages :: u in requested
    ensures FirstsDiffer(Extend(ps, Firsts(ps), provided, deps))
    ensures UsagesSatisfied(Extend(ps, Firsts(ps), provided, deps))
  {
    var all := Extend(ps, Firsts(ps), provided, deps);
    ExtendFirsts(ps, Firsts(ps), provided, deps);
    forall p, u | p in all && u in p.usages
      ensures IsIdentifier(all, u)
    {
      ExtendUsages(ps, Firsts(ps), provided, deps, p);
      var d: Dependency;
      if p in ps {
        assert u in requested;
        d :| d in deps && d.iri == u;
      } else {
        var e :| e in deps && p == Build(provided, e);
        assert e.project.info.Ok? && u in e.project.info.value.value.usage;
        d :| d in deps && d.iri == u;
      }
      ExtendCovers(ps, provided, deps, d);
    }
  }

  predicate InputReads(w: World, i: Input) {
    && i.project.info.Ok? && i.project.info.value.Some? && w.validates(i.project.info.value.value)
    && i.project.exports.Ok? && i.project.exports.value.Some?
    && i.project.sources.Ok?
  }

  function BuildInput(w: World, i: Input): Project
    requires InputReads(w, i)
  {
    BuildFrom(i.project.info.value.value, i.project.exports.value.value,
              if i.identifiers.Some? then i.identifiers.value else [], i.project.sources.value)
  }

  function FirstOf(i: Input): Option<string> {
    if i.identifiers.Some? && i.identifiers.value != [] then Some(i.identifiers.value[0]) else None
  }

  /** Why an input cannot be read: the first of information, its validity, metadata and sources that fails. */
  predicate InputFailsWith(w: World, i: Input, e: LockError) {
    match i.project.info
    case Err(m) => e == ReadFailed(m)
    case Ok(None) => e == IncompleteProject("input", "info")
    case Ok(Some(info)) =>
      if !w.validates(info) then e == InvalidUsage
      else
        match i.project.exports
        case Err(m) => e == ReadFailed(m)
        case Ok(None) => e == IncompleteProject("input", "meta")
        case Ok(Some(_)) => i.project.sources.Err? && e == ReadFailed(i.project.sources.error)
  }

  /** An input can be locked exactly if no reading error is true of it. */
  lemma InputReadsIff(w: World, i: Input)
    ensures InputReads(w, i) <==> forall e :: !InputFailsWith(w, i, e)
  {
    if !InputReads(w, i) {
      var e := match i.project.info
               case Err(m) => ReadFailed(m)
               case Ok(None) => IncompleteProject("input", "info")
               case Ok(Some(info)) =>
                 if !w.validates(info) then InvalidUsage
                 else
                   match i.project.exports
                   case Err(m) => ReadFailed(m)
                   case Ok(None) => IncompleteProject("input", "meta")
                   case Ok(Some(_)) => ReadFailed(i.project.sources.error);
      assert InputFailsWith(w, i, e);
    }
  }

  /** A locked input: its own information, exports and sources, and the identifiers it was given. */
  lemma InputIs(w: World, i: Input, info: Info)
    requires InputReads(w, i) && i.project.info == Ok(Some(info))
    ensures var p := BuildInput(w, i);
            && p.publisher == info.publisher && p.name == info.name && p.version == info.version
            && p.usages == info.usage && i.project.exports == Ok(Some(p.exports)) && i.project.sources == Ok(p.sources)
            && (i.identifiers.Some? ==> p.identifiers == i.identifiers.value)
            && (i.identifiers.None? ==> p.identifiers == [])
  {
  }

  method ReadInput(w: World, i: Input) returns (r: Result<Project, LockError>)
    ensures r.Ok? <==> InputReads(w, i)
    ensures r.Ok? ==> r.value == BuildInput(w, i)
    ensures r.Err? ==> InputFailsWith(w, i, r.error)
  {
    if i.project.info.Err? {
      return Err(ReadFailed(i.project.info.error));
    }
    if i.project.info.value.None? {
      return Err(IncompleteProject("input", "info"));
    }
    if !w.validates(i.project.info.value.value) {
      return Err(InvalidUsage);
    }
    if i.project.exports.Err? {
      return Err(ReadFailed(i.project.exports.error));
    }
    if i.project.exports.value.None? {
      return Err(IncompleteProject("input", "meta"));
    }
    if i.project.sources.Err? {
      return Err(ReadFailed(i.project.sources.error));
    }
    r := Ok(BuildInput(w, i));
  }

  /** Everything the inputs use, in order. */
  function Requests(w: World, inputs: seq<Input>): seq<string>
    requires forall i | i in inputs :: InputReads(w, i)
  {
    if inputs == [] then []
    else Requests(w, inputs[..|inputs| - 1]) + BuildInput(w, inputs[|inputs| - 1]).usages
  }

  lemma RequestsOfOne(w: World, i: Input)
    requires InputReads(w, i)
    ensures Requests(w, []) == [] && Requests(w, [i]) == i.project.info.value.value.usage
  {
    assert [i][..0] == [];
  }

  /** The requests are the inputs' usages, one input's after the other's. */
  lemma {:induction false} RequestsAre(w: World, inputs: seq<Input>, k: nat)
    requires k <= |inputs| && forall i | i in inputs :: InputReads(w, i)
    ensures Requests(w, inputs) == Requests(w, inputs[..k]) + Requests(w, inputs[k..])
  {
    if k == |inputs| {
      assert inputs[..k] == inputs;
    } else {
      var n, tail := |inputs| - 1, inputs[k..];
      assert inputs[..n][..k] == inputs[..k] && inputs[..n][k..] == tail[..n - k];
      assert |tail| - 1 == n - k && tail[n - k] == inputs[n];
      RequestsAre(w, inputs[..n], k);
    }
  }

  method ReadInputs(w: World, inputs: seq<Input>) returns (r: Result<(seq<Project>, seq<string>), LockError>)
    ensures r.Ok? <==> forall i | i in inputs :: InputReads(w, i)
    ensures r.Err? ==>
              exists k | 0 <= k < |inputs| :: !InputReads(w, inputs[k]) && InputFailsWith(w, inputs[k], r.error)
    ensures r.Ok? ==>
              && |r.value.0| == |inputs|
              && (forall k | 0 <= k < |inputs| :: InputReads(w, inputs[k]) && r.value.0[k] == BuildInput(w, inputs[k]))
              && r.value.1 == Requests(w, inputs)
              && forall p, u | p in r.value.0 && u in p.usages :: u in r.value.1
  {
    var projects: seq<Project> := [];
    var allDeps: seq<string> := [];
    for k := 0 to |inputs|
      invariant |projects| == k
      invariant forall j | 0 <= j < k :: InputReads(w, inputs[j]) && projects[j] == BuildInput(w, inputs[j])
      invariant forall i | i in inputs[..k] :: InputReads(w, i)
      invariant allDeps == Requests(w, inputs[..k])
      invariant forall p, u | p in projects && u in p.usages :: u in allDeps
    {
      var read := ReadInput(w, inputs[k]);
      if read.Err? {
        assert inputs[k] in inputs;
        return Err(read.error);
      }
      assert inputs[..k + 1][..k] == inputs[..k];
      assert forall i | i in inputs[..k + 1] :: i in inputs[..k] || i == inputs[k];
      projects := projects + [read.value];
      allDeps := allDeps + read.value.usages;
    }
    assert inputs[..|inputs|] == inputs;
    r := Ok((projects, allDeps));
  }

  /** The inputs as they are locked. */
  function InputProjects(w: World, inputs: seq<Input>): (ps: seq<Project>)
    requires forall i | i in inputs :: InputReads(w, i)
    ensures |ps| == |inputs| && forall k | 0 <= k < |inputs| :: inputs[k] in inputs && ps[k] == BuildInput(w, inputs[k])
  {
    seq(|inputs|, k requires 0 <= k < |inputs| => assert inputs[k] in inputs; BuildInput(w, inputs[k]))
  }

  lemma InputFirsts(w: World, inputs: seq<Input>, projects: seq<Project>)
    requires |projects| == |inputs|
    requires forall k | 0 <= k < |inputs| :: InputReads(w, inputs[k]) && projects[k] == BuildInput(w, inputs[k])
    requires forall i, j | 0 <= i < j < |inputs| :: FirstOf(inputs[i]) != FirstOf(inputs[j])
    ensures FirstsDiffer(projects)
  {
    assert forall k | 0 <= k < |projects| :: First(projects[k]) == FirstOf(inputs[k]);
  }

  /**
   * From inputs to a lock. If the inputs' first identifiers differ (at most one has none) and
   * the solver keeps its promise, a lock that comes out passes the version, collision and
   * usage checks, and starts with the inputs' projects in order.
   */
  method DoLockProjects(w: World, inputs: seq<Input>, provided: set<string>) returns (r: Result<LockOutcome, LockError>)
    ensures r.Ok? ==>
              && (forall i | i in inputs :: InputReads(w, i))
              && |inputs| <= |r.value.lock.projects|
              && (forall k | 0 <= k < |inputs| ::
                    inputs[k] in inputs && r.value.lock.projects[k] == BuildInput(w, inputs[k]))
              && w.solve(Requests(w, inputs)) == Some(r.value.dependencies)
              && r.value.lock.lockVersion == CURRENT_LOCK_VERSION
    ensures r.Err? && (exists i | i in inputs :: !InputReads(w, i)) ==>
              exists k | 0 <= k < |inputs| :: !InputReads(w, inputs[k]) && InputFailsWith(w, inputs[k], r.error)
    ensures r.Err? && (forall i | i in inputs :: InputReads(w, i)) ==>
              var solution := w.solve(Requests(w, inputs));
              if solution.None? then r.error == Solver
              else
                || ClashesIn(w, Lock(CURRENT_LOCK_VERSION, InputProjects(w, inputs)), provided, solution.value, r.error)
                || exists k: nat :: StopsAt(provided, solution.value, k, r.error)
    ensures r.Ok? && Solves(Requests(w, inputs), r.value.dependencies)
              && (forall i, j | 0 <= i < j < |inputs| :: FirstOf(inputs[i]) != FirstOf(inputs[j])) ==>
              NoCollisions(r.value.lock.projects) && UsagesSatisfied(r.value.lock.projects)
  {
    var read := ReadInputs(w, inputs);
    if read.Err? {
      return Err(read.error);
    }
    var (projects, allDeps) := read.value;
    assert projects == InputProjects(w, inputs);
    r := DoLockExtend(w, Lock(CURRENT_LOCK_VERSION, projects), allDeps, provided);
    if r.Ok? {
      var deps := r.value.dependencies;
      if Solves(allDeps, deps) && forall i, j | 0 <= i < j < |inputs| :: FirstOf(inputs[i]) != FirstOf(inputs[j]) {
        InputFirsts(w, inputs, projects);
        ExtendedLockFits(projects, allDeps, provided, deps);
      }
    }
  }
}
