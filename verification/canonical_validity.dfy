/** When the canonical form of a valid lockfile is valid (core/src/lock.rs, `canonicalize` and `validate`). */
module CanonicalValidity {
  import opened Common
  import opened Orderings
  import opened Lockfile
  import opened Canonical

  ghost predicate IsLeast(ids: seq<string>, x: string) {
    x in ids && forall y | y in ids :: CompareString(x, y) != Greater
  }

  /** Both have no identifier, or the same least one. */
  ghost predicate SameLeast(p: Project, q: Project) {
    || (p.identifiers == [] && q.identifiers == [])
    || (exists x :: IsLeast(p.identifiers, x) && IsLeast(q.identifiers, x))
  }

  ghost predicate LeastsDiffer(ps: seq<Project>) {
    forall i, j | 0 <= i < j < |ps| :: !SameLeast(ps[i], ps[j])
  }

  // ---- repeats do not depend on order ----

  lemma {:induction false} DistinctCount<T>(s: seq<T>, x: T)
    requires NoRepeats(s) && x in s
    ensures multiset(s)[x] == 1
  {
    var t := s[1..];
    assert s == [s[0]] + t;
    assert forall i | 0 < i < |s| :: s[i] == t[i - 1];
    if x == s[0] {
      assert x !in t;
    } else {
      assert x in t;
      DistinctCount(t, x);
    }
  }

  lemma RepeatCount<T>(s: seq<T>, i: nat, j: nat)
    requires i < j < |s| && s[i] == s[j]
    ensures multiset(s)[s[i]] >= 2
  {
    assert s == s[..j] + s[j..];
    assert s[..j][i] == s[i] && s[j..][0] == s[j];
    assert s[i] in multiset(s[..j]) && s[i] in multiset(s[j..]);
  }

  lemma NoRepeatsCount<T(!new)>(s: seq<T>)
    ensures NoRepeats(s) <==> forall x | x in s :: multiset(s)[x] == 1
  {
    if NoRepeats(s) {
      forall x | x in s
        ensures multiset(s)[x] == 1
      {
        DistinctCount(s, x);
      }
    } else {
      var i, j :| 0 <= i < j < |s| && s[i] == s[j];
      RepeatCount(s, i, j);
    }
  }

  lemma NoRepeatsPermuted<T(!new)>(a: seq<T>, b: seq<T>)
    requires multiset(a) == multiset(b)
    ensures NoRepeats(a) <==> NoRepeats(b)
  {
    SameMembers(a, b);
    NoRepeatsCount(a);
    NoRepeatsCount(b);
  }

  lemma MapCons<T, R>(f: T -> R, x: T, s: seq<T>)
    ensures Map(f, [x] + s) == [f(x)] + Map(f, s)
  {
  }

  lemma {:induction false} MapInsert<T, R>(f: T -> R, cmp: (T, T) -> Ordering, x: T, s: seq<T>)
    ensures multiset(Map(f, Insert(cmp, x, s))) == multiset{f(x)} + multiset(Map(f, s))
  {
    MapCons(f, x, s);
    if s != [] && cmp(x, s[0]) == Greater {
      MapInsert(f, cmp, x, s[1..]);
      MapCons(f, s[0], Insert(cmp, x, s[1..]));
      MapCons(f, s[0], s[1..]);
      assert s == [s[0]] + s[1..];
    }
  }

  lemma {:induction false} MapSort<T, R>(f: T -> R, cmp: (T, T) -> Ordering, s: seq<T>)
    ensures multiset(Map(f, Sort(cmp, s))) == multiset(Map(f, s))
  {
    if s != [] {
      MapSort(f, cmp, s[1..]);
      MapInsert(f, cmp, s[0], Sort(cmp, s[1..]));
      MapCons(f, s[0], s[1..]);
      assert s == [s[0]] + s[1..];
    }
  }

  // ---- exports ----

  lemma {:induction false} ExportsCons(p: Project, ps: seq<Project>)
    ensures AllExports([p] + ps) == p.exports + AllExports(ps)
  {
    var all := [p] + ps;
    if ps == [] {
      assert all[..0] == [];
    } else {
      ExportsCons(p, ps[..|ps| - 1]);
      assert all[..|all| - 1] == [p] + ps[..|ps| - 1];
    }
  }

  /** A part moves in front of another. */
  lemma PartMoves<T>(a: seq<T>, b: seq<T>, rest: seq<T>, merged: seq<T>)
    requires multiset(merged) == multiset(a) + multiset(rest)
    ensures multiset(b + merged) == multiset(a) + multiset(b + rest)
  {
  }

  lemma ExportsMerge(p: Project, q: Project, tail: seq<Project>, merged: seq<Project>)
    requires multiset(AllExports(merged)) == multiset(p.exports) + multiset(AllExports(tail))
    ensures multiset(AllExports([q] + merged)) == multiset(p.exports) + multiset(AllExports([q] + tail))
  {
    ExportsCons(q, merged);
    ExportsCons(q, tail);
    PartMoves(p.exports, q.exports, AllExports(tail), AllExports(merged));
  }

  lemma {:induction false} ExportsInsert(p: Project, ps: seq<Project>)
    ensures multiset(AllExports(Insert(CompareProject, p, ps))) == multiset(p.exports) + multiset(AllExports(ps))
  {
    if ps == [] || CompareProject(p, ps[0]) != Greater {
      ExportsCons(p, ps);
    } else {
      ExportsInsert(p, ps[1..]);
      ExportsMerge(p, ps[0], ps[1..], Insert(CompareProject, p, ps[1..]));
      assert ps == [ps[0]] + ps[1..];
    }
  }

  lemma {:induction false} ExportsSort(ps: seq<Project>)
    ensures multiset(AllExports(Sort(CompareProject, ps))) == multiset(AllExports(ps))
  {
    if ps != [] {
      ExportsSort(ps[1..]);
      ExportsInsert(ps[0], Sort(CompareProject, ps[1..]));
      ExportsCons(ps[0], ps[1..]);
      assert ps == [ps[0]] + ps[1..];
    }
  }

  lemma {:induction false} ExportsAlike(ps: seq<Project>, qs: seq<Project>)
    requires |ps| == |qs| && forall i | 0 <= i < |ps| :: multiset(ps[i].exports) == multiset(qs[i].exports)
    ensures multiset(AllExports(ps)) == multiset(AllExports(qs))
  {
    if ps != [] {
      ExportsAlike(ps[..|ps| - 1], qs[..|qs| - 1]);
    }
  }

  lemma CanonicalExports(lock: Lock)
    ensures NoRepeats(AllExports(Canonicalize(lock).projects)) <==> NoRepeats(AllExports(lock.projects))
  {
    var a := Map(SortProject, lock.projects);
    forall i | 0 <= i < |a|
      ensures multiset(a[i].exports) == multiset(lock.projects[i].exports)
    {
      SortElements(CompareString, lock.projects[i].exports);
    }
    ExportsAlike(a, lock.projects);
    ExportsSort(a);
    ExportsAlike(Canonicalize(lock).projects, SortAll(lock.projects));
    NoRepeatsPermuted(AllExports(Canonicalize(lock).projects), AllExports(lock.projects));
  }

  // ---- first identifiers ----

  lemma FirstsAreNoRepeats(ps: seq<Project>)
    ensures FirstsDiffer(ps) <==> NoRepeats(Map(First, ps))
  {
    var firsts := Map(First, ps);
    assert forall i | 0 <= i < |ps| :: firsts[i] == First(ps[i]);
    if NoRepeats(firsts) {
      forall i, j | 0 <= i < j < |ps|
        ensures First(ps[i]) != First(ps[j])
      {
        assert firsts[i] != firsts[j];
      }
    }
  }

  /** Sorting puts the least identifier first. */
  lemma SortedFirstIff(ids: seq<string>, x: string)
    ensures Sort(CompareString, ids) == [] <==> ids == []
    ensures ids != [] ==> (Sort(CompareString, ids)[0] == x <==> IsLeast(ids, x))
  {
    var sorted := Sort(CompareString, ids);
    StringOrder();
    SortSorted(CompareString, ids);
    SortElements(CompareString, ids);
    SameMembers(ids, sorted);
    if ids != [] {
      forall y | y in ids
        ensures CompareString(sorted[0], y) != Greater
      {
        var k :| 0 <= k < |sorted| && sorted[k] == y;
        assert CompareString(y, y) == Equal;
      }
      assert sorted[0] in ids;
      if IsLeast(ids, x) {
        assert CompareString(x, sorted[0]) == Equal;
      }
    }
  }

  lemma SameLeastIff(p: Project, q: Project)
    ensures SameLeast(p, q) <==> First(SortProject(p)) == First(SortProject(q))
  {
    SortedFirstIff(p.identifiers, "");
    SortedFirstIff(q.identifiers, "");
    forall x
      ensures p.identifiers != [] ==> (SortProject(p).identifiers[0] == x <==> IsLeast(p.identifiers, x))
      ensures q.identifiers != [] ==> (SortProject(q).identifiers[0] == x <==> IsLeast(q.identifiers, x))
    {
      SortedFirstIff(p.identifiers, x);
      SortedFirstIff(q.identifiers, x);
    }
    if p.identifiers != [] && q.identifiers != [] && First(SortProject(p)) == First(SortProject(q)) {
      assert IsLeast(p.identifiers, SortProject(p).identifiers[0]);
      assert IsLeast(q.identifiers, SortProject(p).identifiers[0]);
    }
  }

  lemma SortedFirstsDifferIff(ps: seq<Project>)
    ensures FirstsDiffer(Map(SortProject, ps)) <==> LeastsDiffer(ps)
  {
    var a := Map(SortProject, ps);
    forall i, j | 0 <= i < j < |ps|
      ensures SameLeast(ps[i], ps[j]) <==> First(a[i]) == First(a[j])
    {
      SameLeastIff(ps[i], ps[j]);
    }
  }

  lemma CanonicalFirsts(lock: Lock)
    ensures FirstsDiffer(Canonicalize(lock).projects) <==> LeastsDiffer(lock.projects)
  {
    var a := Map(SortProject, lock.projects);
    var b := Sort(CompareProject, a);
    var c := Canonicalize(lock).projects;
    SortedFirstsDifferIff(lock.projects);
    FirstsAreNoRepeats(a);
    FirstsAreNoRepeats(c);
    MapSort(First, CompareProject, a);
    assert Map(First, c) == Map(First, b);
    NoRepeatsPermuted(Map(First, a), Map(First, c));
  }

  // ---- usages and sources ----

  /** Each project of the canonical lock is one of the projects, sorted and lower-cased. */
  lemma FromCanonical(lock: Lock, q: Project)
    requires q in Canonicalize(lock).projects
    ensures exists p | p in lock.projects :: q == LowerProject(SortProject(p))
  {
    var c := Canonicalize(lock).projects;
    var k :| 0 <= k < |c| && c[k] == q;
    FromSorted(lock.projects, k);
    var p :| p in lock.projects && SortAll(lock.projects)[k] == SortProject(p);
  }

  lemma ToCanonical(lock: Lock, p: Project)
    requires p in lock.projects
    ensures LowerProject(SortProject(p)) in Canonicalize(lock).projects
  {
    ToSorted(lock.projects, p);
    var sorted := SortAll(lock.projects);
    var k :| 0 <= k < |sorted| && sorted[k] == SortProject(p);
    assert Canonicalize(lock).projects[k] == LowerProject(SortProject(p));
  }

  lemma SortedMembers(p: Project)
    ensures forall x :: x in SortProject(p).identifiers <==> x in p.identifiers
    ensures forall x :: x in SortProject(p).usages <==> x in p.usages
    ensures forall x :: x in SortProject(p).sources <==> x in p.sources
  {
    SortElements(CompareString, p.identifiers);
    SortElements(CompareString, p.usages);
    SortElements(CompareSource, p.sources);
    SameMembers(p.identifiers, SortProject(p).identifiers);
    SameMembers(p.usages, SortProject(p).usages);
    SameMembers(p.sources, SortProject(p).sources);
  }

  /** `qs` are the projects `ps` after `f`, in any order. */
  ghost predicate Image(f: Project -> Project, ps: seq<Project>, qs: seq<Project>) {
    && (forall q | q in qs :: exists p | p in ps :: q == f(p))
    && (forall p | p in ps :: f(p) in qs)
  }

  function CanonicalProject(p: Project): Project { LowerProject(SortProject(p)) }

  lemma CanonicalImage(lock: Lock)
    ensures Image(CanonicalProject, lock.projects, Canonicalize(lock).projects)
  {
    forall q | q in Canonicalize(lock).projects
      ensures exists p | p in lock.projects :: q == CanonicalProject(p)
    {
      FromCanonical(lock, q);
    }
    forall p | p in lock.projects
      ensures CanonicalProject(p) in Canonicalize(lock).projects
    {
      ToCanonical(lock, p);
    }
  }

  /** Both have the same identifiers and usages, in any order. */
  ghost predicate UsesAlike(p: Project, q: Project) {
    && (forall x :: x in p.identifiers <==> x in q.identifiers)
    && (forall x :: x in p.usages <==> x in q.usages)
  }

  lemma IdentifierThrough(f: Project -> Project, ps: seq<Project>, qs: seq<Project>, iri: string)
    requires Image(f, ps, qs) && forall p | p in ps :: UsesAlike(p, f(p))
    ensures IsIdentifier(ps, iri) <==> IsIdentifier(qs, iri)
  {
    if IsIdentifier(ps, iri) {
      var p :| p in ps && iri in p.identifiers;
      assert f(p) in qs && iri in f(p).identifiers;
    }
    if IsIdentifier(qs, iri) {
      var q :| q in qs && iri in q.identifiers;
      var p :| p in ps && q == f(p);
      assert UsesAlike(p, f(p));
    }
  }

  lemma UsagesThrough(f: Project -> Project, ps: seq<Project>, qs: seq<Project>)
    requires Image(f, ps, qs) && forall p | p in ps :: UsesAlike(p, f(p))
    ensures UsagesSatisfied(ps) <==> UsagesSatisfied(qs)
  {
    if UsagesSatisfied(ps) {
      forall q, u | q in qs && u in q.usages
        ensures IsIdentifier(qs, u)
      {
        var p :| p in ps && q == f(p);
        assert UsesAlike(p, f(p));
        IdentifierThrough(f, ps, qs, u);
      }
    }
    if UsagesSatisfied(qs) {
      forall p, u | p in ps && u in p.usages
        ensures IsIdentifier(ps, u)
      {
        assert f(p) in qs && u in f(p).usages;
        IdentifierThrough(f, ps, qs, u);
      }
    }
  }

  lemma CanonicalUsages(lock: Lock)
    ensures UsagesSatisfied(Canonicalize(lock).projects) <==> UsagesSatisfied(lock.projects)
  {
    CanonicalImage(lock);
    forall p | p in lock.projects
      ensures UsesAlike(p, CanonicalProject(p))
    {
      SortedMembers(p);
    }
    UsagesThrough(CanonicalProject, lock.projects, Canonicalize(lock).projects);
  }

  predicate ProjectSourcesFit(located: Source -> bool, p: Project) {
    forall s | s in p.sources :: located(s) && DigestFits(s)
  }

  /** Every source of `p` fits once its digest is lower-case. */
  predicate LoweredSourcesFit(located: Source -> bool, p: Project) {
    forall s | s in p.sources :: located(LowerSource(s)) && DigestFits(LowerSource(s))
  }

  lemma LoweredSourcesIff(located: Source -> bool, p: Project)
    ensures ProjectSourcesFit(located, CanonicalProject(p)) <==> LoweredSourcesFit(located, p)
  {
    var sorted, lowered := SortProject(p).sources, CanonicalProject(p).sources;
    SortedMembers(p);
    forall s | s in p.sources
      ensures LowerSource(s) in lowered
    {
      var k :| 0 <= k < |sorted| && sorted[k] == s;
      assert lowered[k] == LowerSource(s);
    }
    forall t | t in lowered
      ensures exists s | s in p.sources :: t == LowerSource(s)
    {
      var k :| 0 <= k < |lowered| && lowered[k] == t;
      assert sorted[k] in p.sources;
    }
  }

  lemma SourcesThrough(located: Source -> bool, f: Project -> Project, ps: seq<Project>, qs: seq<Project>)
    requires Image(f, ps, qs)
    ensures SourcesFit(located, qs) <==> forall p | p in ps :: ProjectSourcesFit(located, f(p))
  {
  }

  lemma CanonicalSources(located: Source -> bool, lock: Lock)
    ensures SourcesFit(located, Canonicalize(lock).projects) <==>
              forall p | p in lock.projects :: LoweredSourcesFit(located, p)
  {
    CanonicalImage(lock);
    SourcesThrough(located, CanonicalProject, lock.projects, Canonicalize(lock).projects);
    forall p | p in lock.projects
      ensures ProjectSourcesFit(located, CanonicalProject(p)) <==> LoweredSourcesFit(located, p)
    {
      LoweredSourcesIff(located, p);
    }
  }

  /**
   * The canonical form of any lock is valid, and the assertion after it holds, exactly if the
   * version is current, the projects' least identifiers differ, no export is repeated, every
   * usage is some project's identifier and every source fits once its digest is lower-case.
   */
  lemma CanonicalValidIff(located: Source -> bool, lock: Lock)
    ensures Validates(located, Canonicalize(lock)) <==>
              && lock.lockVersion == CURRENT_LOCK_VERSION
              && LeastsDiffer(lock.projects)
              && NoRepeats(AllExports(lock.projects))
              && UsagesSatisfied(lock.projects)
              && (forall p | p in lock.projects :: LoweredSourcesFit(located, p))
  {
    CanonicalFirsts(lock);
    CanonicalExports(lock);
    CanonicalUsages(lock);
    CanonicalSources(located, lock);
  }

  lemma FittingDigestIsLower(s: Source)
    requires DigestFits(s)
    ensures LowerSource(s) == s
  {
    if HasDigest(s) {
      forall i | 0 <= i < |s.digest|
        ensures LowerChar(s.digest[i]) == s.digest[i]
      {
        assert s.digest[i] in s.digest;
      }
      assert Map(LowerChar, s.digest) == s.digest;
    }
  }

  /**
   * The canonical form of a valid lock is valid exactly if the projects' least identifiers
   * differ: validity looks at first identifiers, and sorting puts the least one first.
   */
  lemma CanonicalStaysValidIff(located: Source -> bool, lock: Lock)
    requires Validates(located, lock)
    ensures Validates(located, Canonicalize(lock)) <==> LeastsDiffer(lock.projects)
  {
    CanonicalValidIff(located, lock);
    forall p, s | p in lock.projects && s in p.sources
      ensures located(LowerSource(s)) && DigestFits(LowerSource(s))
    {
      FittingDigestIsLower(s);
    }
  }

  function Aliased(name: string, id: string): Project { Project(None, name, "1.0.0", [], [id, "a"], [], []) }

  lemma AliasedLeast(name: string, id: string)
    requires CompareString(id, "a") == Greater
    ensures IsLeast(Aliased(name, id).identifiers, "a")
  {
    StringOrder();
    assert Aliased(name, id).identifiers[1] == "a";
  }

  lemma AliasedValid(located: Source -> bool, p: Project, q: Project)
    requires p == Aliased("p", "b") && q == Aliased("q", "c")
    ensures Validates(located, Lock(CURRENT_LOCK_VERSION, [p, q]))
  {
    assert AllExports([p, q]) == [] by {
      assert [p, q][..1] == [p] && [p][..0] == [];
      assert AllExports([p]) == [];
    }
    assert p.identifiers[0] == "b" && q.identifiers[0] == "c" && "b"[0] != "c"[0];
  }

  /** Two projects that share the alias `a` behind different first identifiers. */
  lemma ValidityCanBeLost(located: Source -> bool)
    ensures var lock := Lock(CURRENT_LOCK_VERSION, [Aliased("p", "b"), Aliased("q", "c")]);
            Validates(located, lock) && !Validates(located, Canonicalize(lock))
  {
    var p, q := Aliased("p", "b"), Aliased("q", "c");
    var lock := Lock(CURRENT_LOCK_VERSION, [p, q]);
    AliasedValid(located, p, q);
    AliasedLeast("p", "b");
    AliasedLeast("q", "c");
    assert !LeastsDiffer(lock.projects) by {
      assert SameLeast(lock.projects[0], lock.projects[1]);
    }
    CanonicalStaysValidIff(located, lock);
  }
}
