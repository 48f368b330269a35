/**
 * Where a sync run installs the projects of a lockfile and of its canonical form
 * (core/src/lock.rs, `canonicalize`, and core/src/commands/sync.rs, `do_sync`).
 */
module CanonicalTargets {
  import opened Common
  import opened Orderings
  import opened Lockfile
  import opened Canonical
  import opened CanonicalValidity
  import opened Sync

  /** One of its identifiers is provided. */
  predicate Skipped(w: World, p: Project) { exists id | id in p.identifiers :: w.canonical(id) in w.provided }

  /** A project that a run installs: not provided, with a source, and the first one not editable. */
  predicate Lands(w: World, p: Project) { !Skipped(w, p) && p.sources != [] && !p.sources[0].Editable? }

  /** The entry it is installed at, if it is: its first identifier and its version. */
  function Target(w: World, p: Project): (Option<string>, string) {
    (if Lands(w, p) then First(p) else None, p.version)
  }

  function Targets(w: World, ps: seq<Project>): seq<(Option<string>, string)> { Map((p: Project) => Target(w, p), ps) }

  predicate NoEditable(p: Project) { forall s | s in p.sources :: !s.Editable? }

  ghost predicate LeadsWithLeast(p: Project) {
    p.identifiers == [] || IsLeast(p.identifiers, p.identifiers[0])
  }

  function CompareOption(a: Option<string>, b: Option<string>): Ordering {
    match (a, b)
    case (None, None) => Equal
    case (None, Some(_)) => Less
    case (Some(_), None) => Greater
    case (Some(x), Some(y)) => CompareString(x, y)
  }

  lemma OptionOrder()
    ensures TotalOrder(CompareOption)
  {
    StringOrder();
    forall a, b, c | CompareOption(a, b) != Greater && CompareOption(b, c) != Greater
      ensures CompareOption(a, c) != Greater
    {
      if a.Some? && b.Some? && c.Some? {
        assert CompareString(a.value, b.value) != Greater && CompareString(b.value, c.value) != Greater;
      }
    }
  }

  /** Some entry has the greatest key. */
  lemma {:induction false} GreatestKey<K(!new), V>(cmp: (K, K) -> Ordering, a: seq<(K, V)>) returns (k: nat)
    requires TotalOrder(cmp) && a != []
    ensures k < |a| && forall i | 0 <= i < |a| :: cmp(a[i].0, a[k].0) != Greater
  {
    var n := |a| - 1;
    k := n;
    assert cmp(a[n].0, a[n].0) == Equal;
    if n > 0 {
      var j := GreatestKey(cmp, a[..n]);
      assert forall i | 0 <= i < n :: a[..n][i] == a[i];
      if cmp(a[j].0, a[n].0) == Greater {
        k := j;
        assert cmp(a[n].0, a[j].0) == Less;
      } else {
        forall i | 0 <= i < n
          ensures cmp(a[i].0, a[n].0) != Greater
        {
          assert cmp(a[i].0, a[j].0) != Greater;
        }
      }
    }
  }

  /** Each entry has the value of its counterpart and no greater key. */
  ghost predicate Below<K(!new), V>(cmp: (K, K) -> Ordering, a: seq<(K, V)>, b: seq<(K, V)>) {
    |a| == |b| && forall i | 0 <= i < |a| :: cmp(a[i].0, b[i].0) != Greater && a[i].1 == b[i].1
  }

  /** Where the greatest key is, both lists have the same entry. */
  lemma GreatestAlike<K(!new), V>(cmp: (K, K) -> Ordering, a: seq<(K, V)>, b: seq<(K, V)>, k: nat)
    requires TotalOrder(cmp) && Below(cmp, a, b) && multiset(a) == multiset(b) && k < |a|
    requires forall i | 0 <= i < |a| :: cmp(a[i].0, a[k].0) != Greater
    ensures a[k] == b[k]
  {
    SameMembers(a, b);
    assert b[k] in b && b[k] in a;
    var i :| 0 <= i < |a| && a[i] == b[k];
    assert cmp(b[k].0, a[k].0) != Greater && cmp(a[k].0, b[k].0) != Greater;
    assert cmp(a[k].0, b[k].0) == Less <==> cmp(b[k].0, a[k].0) == Greater;
  }

  lemma BelowWithout<K(!new), V>(cmp: (K, K) -> Ordering, a: seq<(K, V)>, b: seq<(K, V)>, k: nat)
    requires Below(cmp, a, b) && k < |a|
    ensures Below(cmp, Without(a, k), Without(b, k))
  {
    var a', b' := Without(a, k), Without(b, k);
    forall i | 0 <= i < |a'|
      ensures cmp(a'[i].0, b'[i].0) != Greater && a'[i].1 == b'[i].1
    {
      var j := if i < k then i else i + 1;
      assert a'[i] == a[j] && b'[i] == b[j];
    }
  }

  lemma WithoutAlike<T>(a: seq<T>, b: seq<T>, k: nat)
    requires |a| == |b| && k < |a| && a[k] == b[k] && multiset(a) == multiset(b)
    ensures multiset(Without(a, k)) == multiset(Without(b, k))
  {
    WithoutMultiset(a, k);
    WithoutMultiset(b, k);
    assert multiset(Without(a, k)) == multiset(a) - multiset{a[k]};
    assert multiset(Without(b, k)) == multiset(b) - multiset{b[k]};
  }

  /** Lists that agree but for order, one below the other, are the same. */
  lemma {:induction false} BelowIsSame<K(!new), V>(cmp: (K, K) -> Ordering, a: seq<(K, V)>, b: seq<(K, V)>)
    requires TotalOrder(cmp) && Below(cmp, a, b) && multiset(a) == multiset(b)
    ensures a == b
    decreases |a|
  {
    if a != [] {
      var k := GreatestKey(cmp, a);
      GreatestAlike(cmp, a, b, k);
      WithoutAlike(a, b, k);
      BelowWithout(cmp, a, b, k);
      BelowIsSame(cmp, Without(a, k), Without(b, k));
      WithoutSame(a, b, k);
    }
  }

  lemma WithoutSame<T>(a: seq<T>, b: seq<T>, k: nat)
    requires |a| == |b| && k < |a| && Without(a, k) == Without(b, k) && a[k] == b[k]
    ensures a == b
  {
    forall i | 0 <= i < |a|
      ensures a[i] == b[i]
    {
      if i < k {
        assert Without(a, k)[i] == a[i] && Without(b, k)[i] == b[i];
      } else if i > k {
        assert Without(a, k)[i - 1] == a[i] && Without(b, k)[i - 1] == b[i];
      }
    }
  }

  // ---- the run and the targets ----

  /** In every run, whatever is written for a project is written at its target. */
  lemma WritesAtTarget(w: World, e: Entries, p: Project, x: Write)
    requires x in SyncProject(w, e, p).writes
    ensures Lands(w, p) && Target(w, p) == (Some(x.iri), x.version)
  {
    FirstProvidedIs(w, p.identifiers, p.version);
    InstallKey(w, p, p.sources, x);
  }

  // ---- what canonicalising does to them ----

  /** Sorting does not raise the first identifier, and keeps it exactly if it is the least. */
  lemma SortedFirst(p: Project)
    ensures CompareOption(First(SortProject(p)), First(p)) != Greater
    ensures First(SortProject(p)) == First(p) <==> LeadsWithLeast(p)
  {
    var ids := p.identifiers;
    SortedFirstIff(ids, "");
    if ids != [] {
      SortedFirstIff(ids, ids[0]);
      SortedFirstIff(ids, Sort(CompareString, ids)[0]);
    }
  }

  /** Editable sources come before all others. */
  lemma BelowEditable(a: Source, b: Source)
    requires CompareSource(a, b) != Greater && b.Editable?
    ensures a.Editable?
  {
  }

  lemma SortedFirstSource(p: Project)
    requires p.sources != []
    ensures SortProject(p).sources != [] && (SortProject(p).sources[0].Editable? <==> !NoEditable(p))
  {
    var sorted := SortProject(p).sources;
    SortedMembers(p);
    SourceOrder();
    SortSorted(CompareSource, p.sources);
    assert p.sources[0] in sorted;
    if !NoEditable(p) {
      var s :| s in p.sources && s.Editable?;
      var k :| 0 <= k < |sorted| && sorted[k] == s;
      if k > 0 {
        BelowEditable(sorted[0], sorted[k]);
      }
    } else {
      assert sorted[0] in p.sources;
    }
  }

  lemma CanonicalLands(w: World, p: Project)
    ensures Lands(w, CanonicalProject(p)) <==> !Skipped(w, p) && p.sources != [] && NoEditable(p)
  {
    SortedMembers(p);
    if p.sources == [] {
      assert CanonicalProject(p).sources == [];
    } else {
      SortedFirstSource(p);
    }
  }

  /** The target stays: nothing is installed, or under the least identifier and with no editable source. */
  ghost predicate StaysPut(w: World, p: Project) {
    Lands(w, p) && p.identifiers != [] ==> LeadsWithLeast(p) && NoEditable(p)
  }

  lemma CanonicalTarget(w: World, p: Project)
    ensures var c := CanonicalProject(p);
            && CompareOption(Target(w, c).0, Target(w, p).0) != Greater && Target(w, c).1 == Target(w, p).1
            && (Target(w, c) == Target(w, p) <==> StaysPut(w, p))
  {
    CanonicalLands(w, p);
    SortedFirst(p);
  }

  lemma TargetsOfCanonical(w: World, lock: Lock)
    ensures multiset(Targets(w, Canonicalize(lock).projects)) ==
              multiset(Targets(w, Map(CanonicalProject, lock.projects)))
  {
    var f := (q: Project) => Target(w, LowerProject(q));
    var a := Map(SortProject, lock.projects);
    MapSort(f, CompareProject, a);
    assert Targets(w, Canonicalize(lock).projects) == Map(f, Sort(CompareProject, a));
    assert Targets(w, Map(CanonicalProject, lock.projects)) == Map(f, a);
  }

  lemma TargetsBelow(w: World, ps: seq<Project>)
    ensures Below(CompareOption, Targets(w, Map(CanonicalProject, ps)), Targets(w, ps))
    ensures Targets(w, Map(CanonicalProject, ps)) == Targets(w, ps) <==> forall p | p in ps :: StaysPut(w, p)
  {
    var a, b := Targets(w, Map(CanonicalProject, ps)), Targets(w, ps);
    forall i | 0 <= i < |ps|
      ensures CompareOption(a[i].0, b[i].0) != Greater && a[i].1 == b[i].1
      ensures a[i] == b[i] <==> StaysPut(w, ps[i])
    {
      CanonicalTarget(w, ps[i]);
    }
  }

  /**
   * A lock and its canonical form have the same targets exactly if every project that a run
   * installs leads with its least identifier and has no editable source: sorting puts those first.
   */
  lemma TargetsKeptIff(w: World, lock: Lock)
    ensures multiset(Targets(w, Canonicalize(lock).projects)) == multiset(Targets(w, lock.projects)) <==>
              forall p | p in lock.projects :: StaysPut(w, p)
  {
    var a, b := Targets(w, Map(CanonicalProject, lock.projects)), Targets(w, lock.projects);
    TargetsOfCanonical(w, lock);
    TargetsBelow(w, lock.projects);
    if multiset(a) == multiset(b) {
      OptionOrder();
      BelowIsSame(CompareOption, a, b);
    }
  }
}
