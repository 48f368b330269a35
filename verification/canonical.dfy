/** The canonical form of a lockfile (core/src/lock.rs, `canonicalize`). */
module Canonical {
  import opened Common
  import opened Orderings
  import opened Lockfile

  function SortProject(p: Project): Project {
    p.(exports := Sort(CompareString, p.exports),
       identifiers := Sort(CompareString, p.identifiers),
       usages := Sort(CompareString, p.usages),
       sources := Sort(CompareSource, p.sources))
  }

  function LowerSource(s: Source): Source {
    if HasDigest(s) then s.(digest := Map(LowerChar, s.digest)) else s
  }

  function LowerProject(p: Project): Project { p.(sources := Map(LowerSource, p.sources)) }

  function SortAll(ps: seq<Project>): seq<Project> { Sort(CompareProject, Map(SortProject, ps)) }

  function Canonicalize(lock: Lock): Lock {
    lock.(projects := Map(LowerProject, SortAll(lock.projects)))
  }

  /** The lock as the command holds it, changed in place. */
  class Document {
    var lockVersion: string
    var projects: seq<Project>

    constructor (lock: Lock)
      ensures Value() == lock
    {
      lockVersion, projects := lock.lockVersion, lock.projects;
    }

    ghost function Value(): Lock
      reads this
    {
      Lock(lockVersion, projects)
    }

    method SortCollections()
      modifies this`projects
      ensures projects == SortAll(old(projects))
    {
      for i := 0 to |projects|
        invariant |projects| == |old(projects)|
        invariant forall j | 0 <= j < i :: projects[j] == SortProject(old(projects)[j])
        invariant forall j | i <= j < |projects| :: projects[j] == old(projects)[j]
      {
        var p := projects[i];
        p := p.(exports := Sort(CompareString, p.exports));
        p := p.(identifiers := Sort(CompareString, p.identifiers));
        p := p.(usages := Sort(CompareString, p.usages));
        p := p.(sources := Sort(CompareSource, p.sources));
        projects := projects[i := p];
      }
      assert projects == Map(SortProject, old(projects));
      projects := Sort(CompareProject, projects);
    }

    method CanonicalizeChecksums()
      modifies this`projects
      ensures projects == Map(LowerProject, old(projects))
    {
      for i := 0 to |projects|
        invariant |projects| == |old(projects)|
        invariant forall j | 0 <= j < i :: projects[j] == LowerProject(old(projects)[j])
        invariant forall j | i <= j < |projects| :: projects[j] == old(projects)[j]
      {
        var sources := projects[i].sources;
        for k := 0 to |sources|
          invariant |sources| == |projects[i].sources|
          invariant forall j | 0 <= j < k :: sources[j] == LowerSource(projects[i].sources[j])
          invariant forall j | k <= j < |sources| :: sources[j] == projects[i].sources[j]
        {
          sources := sources[k := LowerSource(sources[k])];
        }
        assert sources == Map(LowerSource, projects[i].sources);
        projects := projects[i := projects[i].(sources := sources)];
      }
    }

    method CanonicalizeInPlace()
      modifies this`projects
      ensures Value() == Canonicalize(old(Value()))
    {
      SortCollections();
      CanonicalizeChecksums();
    }
  }

  // ---- one form for all orders ----

  /** Same project, its lists in any order. */
  ghost predicate Rearranged(p: Project, q: Project) {
    && p.publisher == q.publisher && p.name == q.name && p.version == q.version
    && multiset(p.exports) == multiset(q.exports)
    && multiset(p.identifiers) == multiset(q.identifiers)
    && multiset(p.usages) == multiset(q.usages)
    && multiset(p.sources) == multiset(q.sources)
  }

  ghost predicate IsPermutation(perm: seq<nat>, n: nat) {
    && |perm| == n
    && (forall i | 0 <= i < n :: perm[i] < n)
    && NoRepeats(perm)
  }

  /** `perm` says where each project of `ps` went in `qs`. */
  ghost predicate Reordered(perm: seq<nat>, ps: seq<Project>, qs: seq<Project>) {
    && |ps| == |qs| && IsPermutation(perm, |ps|)
    && forall i | 0 <= i < |ps| :: Rearranged(ps[i], qs[perm[i]])
  }

  lemma RearrangedSortsSame(p: Project, q: Project)
    requires Rearranged(p, q)
    ensures SortProject(p) == SortProject(q)
  {
    StringOrder();
    SourceOrder();
    SortPermuted(CompareString, p.exports, q.exports);
    SortPermuted(CompareString, p.identifiers, q.identifiers);
    SortPermuted(CompareString, p.usages, q.usages);
    SortPermuted(CompareSource, p.sources, q.sources);
  }

  function Without<T>(s: seq<T>, k: nat): seq<T>
    requires k < |s|
  {
    s[..k] + s[k + 1..]
  }

  lemma WithoutMultiset<T>(s: seq<T>, k: nat)
    requires k < |s|
    ensures multiset(s) == multiset(Without(s, k)) + multiset{s[k]}
  {
    assert s == s[..k] + [s[k]] + s[k + 1..];
  }

  /** The permutation that is left when its last entry `k` and what it points to are removed. */
  function Shrink(perm: seq<nat>, k: nat): (r: seq<nat>)
    requires k !in perm
    ensures |r| == |perm|
    ensures forall i | 0 <= i < |perm| :: r[i] == if perm[i] < k then perm[i] else perm[i] - 1
  {
    seq(|perm|, i requires 0 <= i < |perm| => assert perm[i] in perm; if perm[i] < k then perm[i] else perm[i] - 1)
  }

  lemma {:induction false} PermutedMultiset<T>(perm: seq<nat>, a: seq<T>, b: seq<T>)
    requires |a| == |b| && IsPermutation(perm, |a|)
    requires forall i | 0 <= i < |a| :: a[i] == b[perm[i]]
    ensures multiset(a) == multiset(b)
    decreases |a|
  {
    if a != [] {
      var n := |a| - 1;
      var k := perm[n];
      var rest := Shrink(perm[..n], k);
      var b' := Without(b, k);
      forall i | 0 <= i < n
        ensures rest[i] < n && a[..n][i] == b'[rest[i]]
      {
        assert perm[i] != k;
      }
      PermutedMultiset(rest, a[..n], b');
      WithoutMultiset(b, k);
      assert a == a[..n] + [a[n]];
    }
  }

  /** Canonical locks have the identifiers and exports the sorted ones have. */
  lemma LowerKeepsKeys(ps: seq<Project>)
    requires NoCollisions(Map(LowerProject, ps))
    ensures FirstsDiffer(ps)
  {
    var qs := Map(LowerProject, ps);
    forall i, j | 0 <= i < j < |ps|
      ensures First(ps[i]) != First(ps[j])
    {
      assert First(qs[i]) != First(qs[j]);
    }
  }

  /** Validity is what rules out ties: projects that tie have the same identifiers. */
  lemma FirstsDifferNoTies(ps: seq<Project>)
    requires FirstsDiffer(ps)
    ensures NoTies(CompareProject, ps)
  {
    forall x, y | x in ps && y in ps && CompareProject(x, y) == Equal
      ensures x == y
    {
      var i :| 0 <= i < |ps| && ps[i] == x;
      var j :| 0 <= j < |ps| && ps[j] == y;
      ProjectTies(x, y);
      assert First(x) == First(y);
      assert !(i < j) && !(j < i);
    }
  }

  /**
   * A lock whose canonical form has no collisions has only this one canonical form, however
   * its projects, exports, identifiers, usages and sources are ordered.
   */
  lemma CanonicalFormUnique(perm: seq<nat>, l1: Lock, l2: Lock)
    requires l1.lockVersion == l2.lockVersion && Reordered(perm, l1.projects, l2.projects)
    requires NoCollisions(Canonicalize(l1).projects)
    ensures Canonicalize(l1) == Canonicalize(l2)
  {
    var a, b := Map(SortProject, l1.projects), Map(SortProject, l2.projects);
    forall i | 0 <= i < |a|
      ensures a[i] == b[perm[i]]
    {
      RearrangedSortsSame(l1.projects[i], l2.projects[perm[i]]);
    }
    PermutedMultiset(perm, a, b);
    ProjectOrder();
    LowerKeepsKeys(SortAll(l1.projects));
    FirstsDifferNoTies(SortAll(l1.projects));
    SortElements(CompareProject, a);
    SameMembers(a, Sort(CompareProject, a));
    assert NoTies(CompareProject, a);
    SortPermuted(CompareProject, a, b);
  }

  // ---- canonicalising twice ----

  /** Lower-casing digests does not swap the order of any two sources of the project. */
  ghost predicate LowerKeepsOrder(p: Project) {
    forall s, t | s in p.sources && t in p.sources ::
      CompareSource(s, t) != Greater ==> CompareSource(LowerSource(s), LowerSource(t)) != Greater
  }

  lemma LowerTwice(s: Source)
    ensures LowerSource(LowerSource(s)) == LowerSource(s)
  {
    if HasDigest(s) {
      assert LowerSource(LowerSource(s)).digest == LowerSource(s).digest;
    }
  }

  /** A sorted project is sorted again once it is lower-cased, exactly if the order was kept. */
  lemma SortedAgainIff(p: Project)
    ensures var m := Map(LowerSource, Sort(CompareSource, p.sources));
            Sort(CompareSource, m) == m <==> LowerKeepsOrder(p)
  {
    SourceOrder();
    var sorted := Sort(CompareSource, p.sources);
    var m := Map(LowerSource, sorted);
    SortSorted(CompareSource, p.sources);
    SortElements(CompareSource, p.sources);
    SameMembers(p.sources, sorted);
    if Sort(CompareSource, m) == m {
      SortSorted(CompareSource, m);
      forall s, t | s in p.sources && t in p.sources && CompareSource(s, t) != Greater
        ensures CompareSource(LowerSource(s), LowerSource(t)) != Greater
      {
        OrderInMap(sorted, s, t);
      }
    }
    if LowerKeepsOrder(p) {
      forall i, j | 0 <= i < j < |m|
        ensures CompareSource(m[i], m[j]) != Greater
      {
        assert sorted[i] in p.sources && sorted[j] in p.sources;
      }
      SortFixed(CompareSource, m);
    }
  }

  lemma OrderInMap(sorted: seq<Source>, s: Source, t: Source)
    requires TotalOrder(CompareSource)
    requires Sorted(CompareSource, sorted) && Sorted(CompareSource, Map(LowerSource, sorted))
    requires s in sorted && t in sorted && CompareSource(s, t) != Greater
    ensures CompareSource(LowerSource(s), LowerSource(t)) != Greater
  {
    var m := Map(LowerSource, sorted);
    var i :| 0 <= i < |sorted| && sorted[i] == s;
    var j :| 0 <= j < |sorted| && sorted[j] == t;
    if i < j {
      assert CompareSource(m[i], m[j]) != Greater;
    } else if j < i {
      assert CompareSource(t, s) != Greater;
      assert s == t;
    }
  }

  lemma SortTwice(p: Project)
    ensures SortProject(SortProject(p)) == SortProject(p)
  {
    StringOrder();
    SourceOrder();
    SortSorted(CompareString, p.exports);
    SortSorted(CompareString, p.identifiers);
    SortSorted(CompareString, p.usages);
    SortSorted(CompareSource, p.sources);
    SortFixed(CompareString, Sort(CompareString, p.exports));
    SortFixed(CompareString, Sort(CompareString, p.identifiers));
    SortFixed(CompareString, Sort(CompareString, p.usages));
    SortFixed(CompareSource, Sort(CompareSource, p.sources));
  }

  /** Sorting a canonical project touches nothing but its sources. */
  lemma SortLowered(p: Project)
    ensures var q := LowerProject(SortProject(p));
            SortProject(q) == q.(sources := Sort(CompareSource, q.sources))
  {
    SortTwice(p);
    var s := SortProject(p);
    assert SortProject(s).exports == s.exports && SortProject(s).identifiers == s.identifiers &&
        SortProject(s).usages == s.usages;
  }

  lemma LowerSortedSources(m: seq<Source>)
    requires forall s | s in m :: LowerSource(s) == s
    ensures Map(LowerSource, Sort(CompareSource, m)) == Sort(CompareSource, m)
  {
    SortElements(CompareSource, m);
    SameMembers(m, Sort(CompareSource, m));
    var sorted := Sort(CompareSource, m);
    assert forall i | 0 <= i < |sorted| :: sorted[i] in sorted && sorted[i] in m;
  }

  /** One project of a canonical lock is left alone the second time exactly if its order was kept. */
  lemma ProjectAgainIff(p: Project)
    ensures var q := LowerProject(SortProject(p));
            LowerProject(SortProject(q)) == q <==> LowerKeepsOrder(p)
  {
    var q := LowerProject(SortProject(p));
    SortLowered(p);
    forall s | s in q.sources
      ensures LowerSource(s) == s
    {
      var i :| 0 <= i < |q.sources| && q.sources[i] == s;
      LowerTwice(SortProject(p).sources[i]);
    }
    LowerSortedSources(q.sources);
    SortedAgainIff(p);
  }

  /** The project sort has nothing left to do. */
  lemma ProjectsStaySorted(lock: Lock)
    ensures var c := Canonicalize(lock);
            SortAll(c.projects) == Map(SortProject, c.projects)
  {
    var sorted := SortAll(lock.projects);
    var c := Canonicalize(lock).projects;
    ProjectOrder();
    SortSorted(CompareProject, Map(SortProject, lock.projects));
    forall k | 0 <= k < |sorted|
      ensures exists p :: sorted[k] == SortProject(p) && c[k] == LowerProject(SortProject(p))
    {
      FromSorted(lock.projects, k);
    }
    forall i, j | 0 <= i < j < |c|
      ensures CompareProject(SortProject(c[i]), SortProject(c[j])) != Greater
    {
      var p :| sorted[i] == SortProject(p) && c[i] == LowerProject(SortProject(p));
      var r :| sorted[j] == SortProject(r) && c[j] == LowerProject(SortProject(r));
      SortLowered(p);
      SortLowered(r);
      assert CompareProject(sorted[i], sorted[j]) != Greater;
    }
    SortFixed(CompareProject, Map(SortProject, c));
  }

  /** Every project of the sorted list is one of the projects, sorted. */
  lemma FromSorted(ps: seq<Project>, k: nat)
    requires k < |SortAll(ps)|
    ensures exists p | p in ps :: SortAll(ps)[k] == SortProject(p)
  {
    var a := Map(SortProject, ps);
    SortElements(CompareProject, a);
    SameMembers(a, SortAll(ps));
    assert SortAll(ps)[k] in a;
    var i :| 0 <= i < |a| && a[i] == SortAll(ps)[k];
    assert ps[i] in ps;
  }

  lemma ToSorted(ps: seq<Project>, p: Project)
    requires p in ps
    ensures SortProject(p) in SortAll(ps)
  {
    var a := Map(SortProject, ps);
    SortElements(CompareProject, a);
    SameMembers(a, SortAll(ps));
    var i :| 0 <= i < |ps| && ps[i] == p;
    assert a[i] in a;
  }

  lemma TwiceAt(lock: Lock, k: nat)
    requires k < |lock.projects|
    ensures var c, d := Canonicalize(lock).projects, Canonicalize(Canonicalize(lock)).projects;
            |c| == |d| == |lock.projects| && d[k] == LowerProject(SortProject(c[k]))
  {
    SortElements(CompareProject, Map(SortProject, lock.projects));
    SameMembers(Map(SortProject, lock.projects), SortAll(lock.projects));
    ProjectsStaySorted(lock);
  }

  lemma OnceIfOrderKept(lock: Lock)
    requires forall p | p in lock.projects :: LowerKeepsOrder(p)
    ensures Canonicalize(Canonicalize(lock)).projects == Canonicalize(lock).projects
  {
    var c, d := Canonicalize(lock).projects, Canonicalize(Canonicalize(lock)).projects;
    if lock.projects != [] {
      TwiceAt(lock, 0);
    }
    forall k | 0 <= k < |lock.projects|
      ensures d[k] == c[k]
    {
      TwiceAt(lock, k);
      FromSorted(lock.projects, k);
      var p :| p in lock.projects && SortAll(lock.projects)[k] == SortProject(p);
      ProjectAgainIff(p);
    }
  }

  lemma OrderKeptIfOnce(lock: Lock, p: Project)
    requires p in lock.projects && Canonicalize(Canonicalize(lock)).projects == Canonicalize(lock).projects
    ensures LowerKeepsOrder(p)
  {
    ToSorted(lock.projects, p);
    var sorted := SortAll(lock.projects);
    var k :| 0 <= k < |sorted| && sorted[k] == SortProject(p);
    TwiceAt(lock, 0);
    TwiceAt(lock, k);
    ProjectAgainIff(p);
  }

  /**
   * Canonicalising again changes nothing exactly if, in every project, lower-casing digests
   * keeps the order of its sources: sorting comes before lower-casing.
   */
  lemma CanonicalTwiceIff(lock: Lock)
    ensures Canonicalize(Canonicalize(lock)) == Canonicalize(lock) <==>
              forall p | p in lock.projects :: LowerKeepsOrder(p)
  {
    if Canonicalize(Canonicalize(lock)) == Canonicalize(lock) {
      forall p | p in lock.projects
        ensures LowerKeepsOrder(p)
      {
        OrderKeptIfOnce(lock, p);
      }
    }
    if forall p | p in lock.projects :: LowerKeepsOrder(p) {
      OnceIfOrderKept(lock);
    }
  }

  /** Lower-case digests are enough. */
  lemma LowerCaseKeepsOrder(p: Project)
    requires forall s | s in p.sources :: LowerSource(s) == s
    ensures LowerKeepsOrder(p)
  {
  }

  function Zeros(): string { seq(63, _ => '0') }

  function WithDigit(c: char): Source { RemoteSrc("urn:s", [c] + Zeros()) }

  lemma LowerWithDigit(c: char)
    ensures LowerSource(WithDigit(c)) == WithDigit(LowerChar(c))
  {
    assert Map(LowerChar, [c] + Zeros()) == [LowerChar(c)] + Zeros();
  }

  lemma CompareWithDigit(c: char, d: char)
    requires c != d
    ensures CompareSource(WithDigit(c), WithDigit(d)) == if c < d then Less else Greater
  {
    StringOrder();
    assert CompareString("urn:s", "urn:s") == Equal;
    assert CompareString([c] + Zeros(), [d] + Zeros()) == if c < d then Less else Greater;
  }

  lemma SortTwoSources(s: Source, t: Source)
    requires CompareSource(s, t) == Less
    ensures Sort(CompareSource, [s, t]) == [s, t]
  {
    assert [s, t][1..] == [t] && [t][1..] == [];
    assert Sort(CompareSource, [t]) == [t];
  }

  lemma DigestWithDigit(c: char)
    requires c == 'a' || c == 'b'
    ensures DigestFits(WithDigit(c))
  {
  }

  lemma PairCanonical(p: Project, s: Source, t: Source, s': Source, t': Source)
    requires p.exports == [] && p.usages == [] && p.sources == [s, t] && CompareSource(s, t) == Less
    requires LowerSource(s) == s' && LowerSource(t) == t'
    ensures var q := LowerProject(SortProject(p)); q.exports == [] && q.usages == [] && q.sources == [s', t']
  {
    SortTwoSources(s, t);
    assert Map(LowerSource, [s, t]) == [s', t'];
  }

  lemma PairValidates(located: Source -> bool, p: Project, s: Source, t: Source)
    requires located(s) && DigestFits(s) && located(t) && DigestFits(t)
    requires p.exports == [] && p.usages == [] && p.sources == [s, t]
    ensures Validates(located, Lock(CURRENT_LOCK_VERSION, [p]))
  {
    assert [p][..0] == [] && AllExports([p]) == [];
  }

  lemma CanonicalOne(version: string, p: Project)
    ensures Canonicalize(Lock(version, [p])) == Lock(version, [LowerProject(SortProject(p))])
  {
    var q := SortProject(p);
    assert Map(SortProject, [p]) == [q] && [q][1..] == [];
    assert Sort(CompareProject, [q]) == [q];
    assert Map(LowerProject, [q]) == [LowerProject(q)];
  }

  lemma ChangesAgain(lock: Lock, p: Project)
    requires p in lock.projects && !LowerKeepsOrder(p)
    ensures Canonicalize(Canonicalize(lock)) != Canonicalize(lock)
  {
    CanonicalTwiceIff(lock);
  }

  /** Two sources whose order lower-casing reverses, and nothing else. */
  lemma PairSwaps(located: Source -> bool, p: Project, s: Source, t: Source, s': Source, t': Source)
    requires p.exports == [] && p.usages == [] && p.sources == [s, t]
    requires LowerSource(s) == s' && LowerSource(t) == t'
    requires CompareSource(s, t) == Less && CompareSource(s', t') == Greater
    requires located(s') && DigestFits(s') && located(t') && DigestFits(t')
    ensures var lock := Lock(CURRENT_LOCK_VERSION, [p]);
            && Validates(located, Canonicalize(lock))
            && Canonicalize(Canonicalize(lock)) != Canonicalize(lock)
  {
    var lock := Lock(CURRENT_LOCK_VERSION, [p]);
    assert Validates(located, Canonicalize(lock)) by {
      CanonicalOne(CURRENT_LOCK_VERSION, p);
      PairCanonical(p, s, t, s', t');
      PairValidates(located, LowerProject(SortProject(p)), s', t');
    }
    assert !LowerKeepsOrder(p) by {
      assert p.sources[0] == s && p.sources[1] == t;
    }
    assert lock.projects[0] == p;
    ChangesAgain(lock, p);
  }

  /** `B` sorts before `a`, `b` after it: a valid canonical form that canonicalising changes. */
  lemma MixedCaseSwaps(located: Source -> bool, p: Project)
    requires located(WithDigit('a')) && located(WithDigit('b'))
    requires p.exports == [] && p.usages == [] && p.sources == [WithDigit('B'), WithDigit('a')]
    ensures var lock := Lock(CURRENT_LOCK_VERSION, [p]);
            && Validates(located, Canonicalize(lock))
            && Canonicalize(Canonicalize(lock)) != Canonicalize(lock)
  {
    var s, t, s' := WithDigit('B'), WithDigit('a'), WithDigit('b');
    assert LowerSource(s) == s' && LowerSource(t) == t by {
      LowerWithDigit('B');
      LowerWithDigit('a');
    }
    assert CompareSource(s, t) == Less && CompareSource(s', t) == Greater by {
      CompareWithDigit('B', 'a');
      CompareWithDigit('b', 'a');
    }
    assert DigestFits(s') && DigestFits(t) by {
      DigestWithDigit('a');
      DigestWithDigit('b');
    }
    PairSwaps(located, p, s, t, s', t);
  }
}
