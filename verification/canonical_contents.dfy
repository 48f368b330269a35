/** What canonicalising keeps of a lockfile and how it orders it (core/src/lock.rs, `canonicalize`). */
module CanonicalContents {
  import opened Common
  import opened Orderings
  import opened Lockfile
  import opened Canonical
  import opened CanonicalValidity

  // ---- contents ----

  /** `e` is `d` with every ASCII capital in lower case. */
  predicate InLowerCase(d: string, e: string) {
    && |d| == |e|
    && forall i | 0 <= i < |d| :: if 'A' <= d[i] <= 'Z' then e[i] as int == d[i] as int + 32 else e[i] == d[i]
  }

  /** `t` is `s` but for the case of its digest. */
  predicate DigestLowered(s: Source, t: Source) {
    match (s, t)
    case (Editable(a), Editable(b)) => a == b
    case (LocalSrc(a, d), LocalSrc(b, e)) => a == b && InLowerCase(d, e)
    case (LocalKpar(a, n, d), LocalKpar(b, m, e)) => a == b && n == m && InLowerCase(d, e)
    case (RemoteKpar(a, n, d), RemoteKpar(b, m, e)) => a == b && n == m && InLowerCase(d, e)
    case (IndexKpar(a, n, d), IndexKpar(b, m, e)) => a == b && n == m && InLowerCase(d, e)
    case (RemoteSrc(a, d), RemoteSrc(b, e)) => a == b && InLowerCase(d, e)
    case (RemoteGit(a), RemoteGit(b)) => a == b
    case _ => false
  }

  lemma LoweredIs(s: Source)
    ensures DigestLowered(s, LowerSource(s))
  {
  }

  /** Sources as they were, in the order `perm`, digests in lower case. */
  ghost predicate SourcesKept(perm: seq<nat>, a: seq<Source>, b: seq<Source>) {
    && |a| == |b| && IsPermutation(perm, |a|)
    && forall i | 0 <= i < |a| :: DigestLowered(a[i], b[perm[i]])
  }

  /** `q` is `p` with its lists in some order and digests in lower case. */
  ghost predicate SameContents(p: Project, q: Project) {
    && p.publisher == q.publisher && p.name == q.name && p.version == q.version
    && multiset(p.exports) == multiset(q.exports)
    && multiset(p.identifiers) == multiset(q.identifiers)
    && multiset(p.usages) == multiset(q.usages)
    && exists perm :: SourcesKept(perm, p.sources, q.sources)
  }

  /** Room for `k`. */
  function Grow(perm: seq<nat>, k: nat): (r: seq<nat>)
    ensures |r| == |perm| && forall i | 0 <= i < |perm| :: r[i] == if perm[i] < k then perm[i] else perm[i] + 1
  {
    seq(|perm|, i requires 0 <= i < |perm| => if perm[i] < k then perm[i] else perm[i] + 1)
  }

  lemma GrowPermutation(perm: seq<nat>, k: nat, n: nat)
    requires IsPermutation(perm, n) && k <= n
    ensures IsPermutation(Grow(perm, k) + [k], n + 1)
  {
    var r := Grow(perm, k) + [k];
    forall i, j | 0 <= i < j < |r|
      ensures r[i] != r[j]
    {
      if j < n {
        assert perm[i] != perm[j];
      }
    }
  }

  lemma WithoutLast<T>(a: seq<T>, b: seq<T>, k: nat)
    requires multiset(a) == multiset(b) && a != [] && k < |b| && b[k] == a[|a| - 1]
    ensures multiset(a[..|a| - 1]) == multiset(Without(b, k))
  {
    var n := |a| - 1;
    WithoutMultiset(b, k);
    assert a == a[..n] + [a[n]];
    assert multiset(a[..n]) == multiset(a) - multiset{a[n]};
    assert multiset(Without(b, k)) == multiset(b) - multiset{b[k]};
  }

  lemma PermutesAll<T>(a: seq<T>, b: seq<T>, k: nat, rest: seq<nat>)
    requires a != [] && |a| == |b| && k < |b| && b[k] == a[|a| - 1] && IsPermutation(rest, |a| - 1)
    requires forall i | 0 <= i < |a| - 1 :: a[i] == Without(b, k)[rest[i]]
    ensures var perm := Grow(rest, k) + [k];
            |perm| == |a| && forall i | 0 <= i < |a| :: perm[i] < |b| && a[i] == b[perm[i]]
  {
    var perm := Grow(rest, k) + [k];
    forall i | 0 <= i < |a|
      ensures perm[i] < |b| && a[i] == b[perm[i]]
    {
      if i < |a| - 1 {
        assert a[i] == Without(b, k)[rest[i]];
      }
    }
  }

  /** Lists with the same elements are permutations of each other. */
  lemma {:induction false} FindPermutation<T>(a: seq<T>, b: seq<T>) returns (perm: seq<nat>)
    requires multiset(a) == multiset(b)
    ensures |a| == |b| && IsPermutation(perm, |a|) && forall i | 0 <= i < |a| :: a[i] == b[perm[i]]
    decreases |a|
  {
    SameMembers(a, b);
    if a == [] {
      perm := [];
    } else {
      var n := |a| - 1;
      assert a[n] in b;
      var k :| 0 <= k < |b| && b[k] == a[n];
      WithoutLast(a, b, k);
      var rest := FindPermutation(a[..n], Without(b, k));
      perm := Grow(rest, k) + [k];
      GrowPermutation(rest, k, n);
      PermutesAll(a, b, k, rest);
    }
  }

  lemma ProjectKept(p: Project)
    ensures SameContents(p, CanonicalProject(p))
  {
    var sorted, q := Sort(CompareSource, p.sources), CanonicalProject(p);
    SortElements(CompareString, p.exports);
    SortElements(CompareString, p.identifiers);
    SortElements(CompareString, p.usages);
    SortElements(CompareSource, p.sources);
    var perm := FindPermutation(p.sources, sorted);
    forall i | 0 <= i < |p.sources|
      ensures DigestLowered(p.sources[i], q.sources[perm[i]])
    {
      LoweredIs(p.sources[i]);
      assert q.sources[perm[i]] == LowerSource(sorted[perm[i]]);
    }
    assert SourcesKept(perm, p.sources, q.sources);
  }

  /**
   * Whatever the lock, its canonical form has the same version and the same projects in some
   * order, each with the same publisher, name and version, the same exports, identifiers,
   * usages and sources in some order, and nothing else changed than the case of digests.
   */
  lemma ContentsKept(lock: Lock) returns (perm: seq<nat>)
    ensures var c := Canonicalize(lock);
            && c.lockVersion == lock.lockVersion
            && |c.projects| == |lock.projects| && IsPermutation(perm, |lock.projects|)
            && forall i | 0 <= i < |lock.projects| :: SameContents(lock.projects[i], c.projects[perm[i]])
  {
    var a := Map(SortProject, lock.projects);
    var sorted, c := Sort(CompareProject, a), Canonicalize(lock).projects;
    SortElements(CompareProject, a);
    perm := FindPermutation(a, sorted);
    forall i | 0 <= i < |lock.projects|
      ensures SameContents(lock.projects[i], c[perm[i]])
    {
      ProjectKept(lock.projects[i]);
      assert sorted[perm[i]] == SortProject(lock.projects[i]);
      assert c[perm[i]] == CanonicalProject(lock.projects[i]);
    }
  }

  // ---- order ----

  /** No element is below one that comes before it. */
  ghost predicate Ascends(s: seq<string>) {
    forall i, j | 0 <= i < j < |s| :: s[i] == s[j] || StringBelow(s[i], s[j])
  }

  /** By name, then exports, then identifiers, then version. */
  ghost predicate ProjectBelow(p: Project, q: Project) {
    || StringBelow(p.name, q.name)
    || (p.name == q.name && StringsBelow(p.exports, q.exports))
    || (p.name == q.name && p.exports == q.exports && StringsBelow(p.identifiers, q.identifiers))
    || (&& p.name == q.name && p.exports == q.exports && p.identifiers == q.identifiers
        && StringBelow(p.version, q.version))
  }

  predicate ProjectTie(p: Project, q: Project) {
    p.name == q.name && p.exports == q.exports && p.identifiers == q.identifiers && p.version == q.version
  }

  lemma ProjectBelowIff(p: Project, q: Project)
    ensures CompareProject(p, q) == Less <==> ProjectBelow(p, q)
    ensures CompareProject(p, q) == Equal <==> ProjectTie(p, q)
  {
    StringBelowIff(p.name, q.name);
    StringsBelowIff(p.exports, q.exports);
    StringsBelowIff(p.identifiers, q.identifiers);
    StringBelowIff(p.version, q.version);
  }

  lemma SortAscends(s: seq<string>)
    ensures Ascends(Sort(CompareString, s))
  {
    var sorted := Sort(CompareString, s);
    StringOrder();
    SortSorted(CompareString, s);
    forall i, j | 0 <= i < j < |sorted|
      ensures sorted[i] == sorted[j] || StringBelow(sorted[i], sorted[j])
    {
      StringBelowIff(sorted[i], sorted[j]);
    }
  }

  /** The projects of a canonical form ascend, and so do the exports, identifiers and usages of each. */
  lemma CanonicalAscends(lock: Lock)
    ensures var c := Canonicalize(lock).projects;
            && (forall i, j | 0 <= i < j < |c| :: ProjectBelow(c[i], c[j]) || ProjectTie(c[i], c[j]))
            && forall q | q in c :: Ascends(q.exports) && Ascends(q.identifiers) && Ascends(q.usages)
  {
    var sorted, c := SortAll(lock.projects), Canonicalize(lock).projects;
    ProjectOrder();
    SortSorted(CompareProject, Map(SortProject, lock.projects));
    forall i, j | 0 <= i < j < |c|
      ensures ProjectBelow(c[i], c[j]) || ProjectTie(c[i], c[j])
    {
      ProjectBelowIff(sorted[i], sorted[j]);
    }
    forall q | q in c
      ensures Ascends(q.exports) && Ascends(q.identifiers) && Ascends(q.usages)
    {
      FromCanonical(lock, q);
      var p :| p in lock.projects && q == LowerProject(SortProject(p));
      SortAscends(p.exports);
      SortAscends(p.identifiers);
      SortAscends(p.usages);
    }
  }

  /** Root, current directory, parent, then names. */
  ghost predicate ComponentBelow(a: Component, b: Component) {
    match (a, b)
    case (RootDir, RootDir) => false
    case (RootDir, _) => true
    case (CurDir, ParentDir) => true
    case (CurDir, Normal(_)) => true
    case (ParentDir, Normal(_)) => true
    case (Normal(x), Normal(y)) => StringBelow(x, y)
    case _ => false
  }

  ghost predicate PathBelow(a: UnixPath, b: UnixPath) { LexBelow((x, y) => ComponentBelow(x, y), a, b) }

  /** The variants in this order, then where it is, then the size, then the digest. */
  ghost predicate SourceBelow(s: Source, t: Source) {
    match (s, t)
    case (Editable(a), Editable(b)) => PathBelow(a, b)
    case (Editable(_), _) => true
    case (LocalSrc(a, d), LocalSrc(b, e)) => PathBelow(a, b) || (a == b && StringBelow(d, e))
    case (LocalSrc(_, _), _) => !t.Editable?
    case (LocalKpar(a, n, d), LocalKpar(b, m, e)) =>
      PathBelow(a, b) || (a == b && (n < m || (n == m && StringBelow(d, e))))
    case (LocalKpar(_, _, _), _) => !t.Editable? && !t.LocalSrc?
    case (RemoteKpar(a, n, d), RemoteKpar(b, m, e)) =>
      StringBelow(a, b) || (a == b && (n < m || (n == m && StringBelow(d, e))))
    case (RemoteKpar(_, _, _), _) => t.IndexKpar? || t.RemoteSrc? || t.RemoteGit?
    case (IndexKpar(a, n, d), IndexKpar(b, m, e)) =>
      StringBelow(a, b) || (a == b && (n < m || (n == m && StringBelow(d, e))))
    case (IndexKpar(_, _, _), _) => t.RemoteSrc? || t.RemoteGit?
    case (RemoteSrc(a, d), RemoteSrc(b, e)) => StringBelow(a, b) || (a == b && StringBelow(d, e))
    case (RemoteSrc(_, _), _) => t.RemoteGit?
    case (RemoteGit(a), RemoteGit(b)) => StringBelow(a, b)
    case (RemoteGit(_), _) => false
  }

  lemma ComponentBelowIff(a: Component, b: Component)
    ensures CompareComponent(a, b) == Less <==> ComponentBelow(a, b)
  {
    if a.Normal? && b.Normal? {
      StringBelowIff(a.name, b.name);
    }
  }

  lemma PathBelowIff(a: UnixPath, b: UnixPath)
    ensures ComparePath(a, b) == Less <==> PathBelow(a, b)
    ensures ComparePath(a, b) == Equal <==> a == b
  {
    ComponentOrder();
    forall x, y
      ensures CompareComponent(x, y) == Less <==> ComponentBelow(x, y)
    {
      ComponentBelowIff(x, y);
    }
    LexIff(CompareComponent, (x, y) => ComponentBelow(x, y), a, b);
    LexPair(CompareComponent, a, b);
    LexPair(CompareComponent, a, a);
  }

  lemma SourceBelowIff(s: Source, t: Source)
    ensures CompareSource(s, t) == Less <==> SourceBelow(s, t)
  {
    var path := ComparePath(PathOf(s), PathOf(t));
    var url := CompareString(UrlOf(s), UrlOf(t));
    var digest := CompareString(DigestOf(s), DigestOf(t));
    PathBelowIff(PathOf(s), PathOf(t));
    StringBelowIff(UrlOf(s), UrlOf(t));
    StringBelowIff(DigestOf(s), DigestOf(t));
    if SourceRank(s) == SourceRank(t) {
      assert CompareSource(s, t) == path.Then(url).Then(CompareInt(SizeOf(s), SizeOf(t))).Then(digest);
    } else {
      assert CompareSource(s, t) == CompareInt(SourceRank(s), SourceRank(t));
    }
  }

  /** The sources of a canonical project are those of the project in ascending order, then lower-cased. */
  lemma SourcesAscend(p: Project) returns (sorted: seq<Source>)
    ensures multiset(sorted) == multiset(p.sources)
    ensures forall i, j | 0 <= i < j < |sorted| :: sorted[i] == sorted[j] || SourceBelow(sorted[i], sorted[j])
    ensures |CanonicalProject(p).sources| == |sorted|
    ensures forall i | 0 <= i < |sorted| :: DigestLowered(sorted[i], CanonicalProject(p).sources[i])
  {
    sorted := Sort(CompareSource, p.sources);
    SourceOrder();
    SortSorted(CompareSource, p.sources);
    SortElements(CompareSource, p.sources);
    forall i, j | 0 <= i < j < |sorted|
      ensures sorted[i] == sorted[j] || SourceBelow(sorted[i], sorted[j])
    {
      SourceBelowIff(sorted[i], sorted[j]);
    }
    forall i | 0 <= i < |sorted|
      ensures DigestLowered(sorted[i], CanonicalProject(p).sources[i])
    {
      LoweredIs(sorted[i]);
    }
  }
}
