/** Comparison functions, lexicographic order and the stable sort. */
module Orderings {

  datatype Ordering = Less | Equal | Greater {
    /** This comparison, and `next` where it does not decide. */
    function Then(next: Ordering): Ordering { if Equal? then next else this }
  }

  /** A consistent comparison; different values may tie. */
  ghost predicate WeakOrder<T(!new)>(cmp: (T, T) -> Ordering) {
    && (forall a, b :: cmp(a, b) == Less <==> cmp(b, a) == Greater)
    && (forall a, b, c :: cmp(a, b) != Greater && cmp(b, c) != Greater ==> cmp(a, c) != Greater)
  }

  /** A consistent comparison in which only equal values tie. */
  ghost predicate TotalOrder<T(!new)>(cmp: (T, T) -> Ordering) {
    WeakOrder(cmp) && forall a, b :: cmp(a, b) == Equal ==> a == b
  }

  function CompareInt(a: int, b: int): Ordering {
    if a < b then Less else if a > b then Greater else Equal
  }

  function CompareChar(a: char, b: char): Ordering { CompareInt(a as int, b as int) }

  function Lex<T>(cmp: (T, T) -> Ordering, a: seq<T>, b: seq<T>): Ordering {
    if a == [] then (if b == [] then Equal else Less)
    else if b == [] then Greater
    else cmp(a[0], b[0]).Then(Lex(cmp, a[1..], b[1..]))
  }

  lemma {:induction false} LexPair<T(!new)>(cmp: (T, T) -> Ordering, a: seq<T>, b: seq<T>)
    requires TotalOrder(cmp)
    ensures Lex(cmp, a, b) == Less <==> Lex(cmp, b, a) == Greater
    ensures Lex(cmp, a, b) == Equal ==> a == b
  {
    if a != [] && b != [] {
      LexPair(cmp, a[1..], b[1..]);
      assert a == [a[0]] + a[1..] && b == [b[0]] + b[1..];
    }
  }

  lemma {:induction false} LexTransitive<T(!new)>(cmp: (T, T) -> Ordering, a: seq<T>, b: seq<T>, c: seq<T>)
    requires TotalOrder(cmp)
    requires Lex(cmp, a, b) != Greater && Lex(cmp, b, c) != Greater
    ensures Lex(cmp, a, c) != Greater
  {
    if a != [] && b != [] && c != [] {
      if cmp(a[0], b[0]) == Equal && cmp(b[0], c[0]) == Equal {
        LexTransitive(cmp, a[1..], b[1..], c[1..]);
      }
    }
  }

  /** Byte order of UTF-8 strings, which is the order of their code points. */
  function CompareString(a: string, b: string): Ordering { Lex(CompareChar, a, b) }

  function CompareStrings(a: seq<string>, b: seq<string>): Ordering { Lex(CompareString, a, b) }

  lemma StringOrder()
    ensures TotalOrder(CompareString)
  {
    assert TotalOrder(CompareChar);
    forall a, b {
      LexPair(CompareChar, a, b);
    }
    forall a, b, c | CompareString(a, b) != Greater && CompareString(b, c) != Greater
      ensures CompareString(a, c) != Greater
    {
      LexTransitive(CompareChar, a, b, c);
    }
  }

  lemma StringsOrder()
    ensures TotalOrder(CompareStrings)
  {
    StringOrder();
    forall a, b {
      LexPair(CompareString, a, b);
    }
    forall a, b, c | CompareStrings(a, b) != Greater && CompareStrings(b, c) != Greater
      ensures CompareStrings(a, c) != Greater
    {
      LexTransitive(CompareString, a, b, c);
    }
  }

  // ---- what these comparisons say ----

  /** `a` and `b` agree up to `k`, where `a` ends or has the lower element. */
  predicate DiffersAt<T(==)>(below: (T, T) -> bool, a: seq<T>, b: seq<T>, k: nat) {
    && k <= |a| && k < |b| && a[..k] == b[..k]
    && (k == |a| || below(a[k], b[k]))
  }

  ghost predicate LexBelow<T>(below: (T, T) -> bool, a: seq<T>, b: seq<T>) {
    exists k: nat :: DiffersAt(below, a, b, k)
  }

  ghost predicate Decides<T(!new)>(cmp: (T, T) -> Ordering, below: (T, T) -> bool) {
    forall x, y :: cmp(x, y) == Less <==> below(x, y)
  }

  lemma DiffersLater<T(!new)>(below: (T, T) -> bool, a: seq<T>, b: seq<T>, k: nat)
    requires a != [] && b != [] && a[0] == b[0]
    ensures DiffersAt(below, a[1..], b[1..], k) <==> DiffersAt(below, a, b, k + 1)
  {
    if k < |a| && k + 1 < |b| {
      assert a[..k + 1] == [a[0]] + a[1..][..k] && b[..k + 1] == [b[0]] + b[1..][..k];
      assert a[..k + 1][1..] == a[1..][..k] && b[..k + 1][1..] == b[1..][..k];
    }
  }

  /** The lexicographic comparison: the first difference decides, and a proper prefix is below. */
  lemma {:induction false} LexIff<T(!new)>(cmp: (T, T) -> Ordering, below: (T, T) -> bool, a: seq<T>, b: seq<T>)
    requires TotalOrder(cmp) && Decides(cmp, below)
    ensures Lex(cmp, a, b) == Less <==> LexBelow(below, a, b)
  {
    if a == [] {
      assert b != [] ==> DiffersAt(below, a, b, 0);
    } else if b == [] {
    } else if a[0] != b[0] {
      assert cmp(a[0], b[0]) != Equal;
      LexHead(below, a, b);
    } else {
      LexIff(cmp, below, a[1..], b[1..]);
      LexTail(cmp, below, a, b);
    }
  }

  lemma LexHead<T(!new)>(below: (T, T) -> bool, a: seq<T>, b: seq<T>)
    requires a != [] && b != [] && a[0] != b[0]
    ensures LexBelow(below, a, b) <==> below(a[0], b[0])
  {
    if below(a[0], b[0]) {
      assert DiffersAt(below, a, b, 0);
    }
    assert forall k: nat | DiffersAt(below, a, b, k) :: k > 0 ==> a[..k][0] == a[0] && b[..k][0] == b[0];
  }

  lemma LexTail<T(!new)>(cmp: (T, T) -> Ordering, below: (T, T) -> bool, a: seq<T>, b: seq<T>)
    requires TotalOrder(cmp) && Decides(cmp, below) && a != [] && b != [] && a[0] == b[0]
    ensures LexBelow(below, a, b) <==> LexBelow(below, a[1..], b[1..])
    ensures Lex(cmp, a, b) == Lex(cmp, a[1..], b[1..])
  {
    assert cmp(a[0], b[0]) == Equal by {
      assert cmp(a[0], a[0]) != Less;
    }
    if LexBelow(below, a, b) {
      var k: nat :| DiffersAt(below, a, b, k);
      assert k > 0 by {
        assert !below(a[0], b[0]);
      }
      DiffersLater(below, a, b, k - 1);
    }
    if LexBelow(below, a[1..], b[1..]) {
      var k: nat :| DiffersAt(below, a[1..], b[1..], k);
      DiffersLater(below, a, b, k);
    }
  }

  predicate CharBelow(a: char, b: char) { a < b }

  ghost predicate StringBelow(a: string, b: string) { LexBelow(CharBelow, a, b) }

  ghost predicate StringsBelow(a: seq<string>, b: seq<string>) { LexBelow((x, y) => StringBelow(x, y), a, b) }

  lemma StringBelowIff(a: string, b: string)
    ensures CompareString(a, b) == Less <==> StringBelow(a, b)
    ensures CompareString(a, b) == Equal <==> a == b
  {
    assert TotalOrder(CompareChar);
    LexIff(CompareChar, CharBelow, a, b);
    LexPair(CompareChar, a, b);
    LexPair(CompareChar, a, a);
  }

  lemma StringsBelowIff(a: seq<string>, b: seq<string>)
    ensures CompareStrings(a, b) == Less <==> StringsBelow(a, b)
    ensures CompareStrings(a, b) == Equal <==> a == b
  {
    StringOrder();
    forall x, y
      ensures CompareString(x, y) == Less <==> StringBelow(x, y)
    {
      StringBelowIff(x, y);
    }
    LexIff(CompareString, (x, y) => StringBelow(x, y), a, b);
    LexPair(CompareString, a, b);
    LexPair(CompareString, a, a);
  }

  // ---- stable sort ----

  ghost predicate Sorted<T>(cmp: (T, T) -> Ordering, s: seq<T>) {
    forall i, j | 0 <= i < j < |s| :: cmp(s[i], s[j]) != Greater
  }

  /** Put `x` in front of the first element that is not below it. */
  function Insert<T>(cmp: (T, T) -> Ordering, x: T, s: seq<T>): seq<T> {
    if s == [] || cmp(x, s[0]) != Greater then [x] + s else [s[0]] + Insert(cmp, x, s[1..])
  }

  /** The stable sort of the standard library. */
  function Sort<T>(cmp: (T, T) -> Ordering, s: seq<T>): seq<T> {
    if s == [] then [] else Insert(cmp, s[0], Sort(cmp, s[1..]))
  }

  lemma {:induction false} InsertElements<T>(cmp: (T, T) -> Ordering, x: T, s: seq<T>)
    ensures multiset(Insert(cmp, x, s)) == multiset{x} + multiset(s)
  {
    if s != [] && cmp(x, s[0]) == Greater {
      InsertElements(cmp, x, s[1..]);
      assert s == [s[0]] + s[1..];
    }
  }

  lemma {:induction false} SortElements<T>(cmp: (T, T) -> Ordering, s: seq<T>)
    ensures multiset(Sort(cmp, s)) == multiset(s)
  {
    if s != [] {
      SortElements(cmp, s[1..]);
      InsertElements(cmp, s[0], Sort(cmp, s[1..]));
      assert s == [s[0]] + s[1..];
    }
  }

  lemma SameMembers<T>(a: seq<T>, b: seq<T>)
    requires multiset(a) == multiset(b)
    ensures |a| == |b| && forall x :: x in a <==> x in b
  {
    assert |multiset(a)| == |a| && |multiset(b)| == |b|;
    assert forall x :: x in a <==> x in multiset(a);
    assert forall x :: x in b <==> x in multiset(b);
  }

  lemma SortedCons<T>(cmp: (T, T) -> Ordering, x: T, s: seq<T>)
    requires Sorted(cmp, s) && forall y | y in s :: cmp(x, y) != Greater
    ensures Sorted(cmp, [x] + s)
  {
  }

  lemma {:induction false} InsertSorted<T(!new)>(cmp: (T, T) -> Ordering, x: T, s: seq<T>)
    requires WeakOrder(cmp) && Sorted(cmp, s)
    ensures Sorted(cmp, Insert(cmp, x, s))
  {
    if s == [] {
    } else if cmp(x, s[0]) != Greater {
      forall y | y in s
        ensures cmp(x, y) != Greater
      {
        var i :| 0 <= i < |s| && s[i] == y;
        assert cmp(s[0], s[i]) != Greater;
      }
      SortedCons(cmp, x, s);
    } else {
      var tail := s[1..];
      InsertSorted(cmp, x, tail);
      InsertElements(cmp, x, tail);
      forall y | y in Insert(cmp, x, tail)
        ensures cmp(s[0], y) != Greater
      {
        assert y in multiset(Insert(cmp, x, tail));
        if y != x {
          assert y in tail;
        }
      }
      SortedCons(cmp, s[0], Insert(cmp, x, tail));
    }
  }

  lemma {:induction false} SortSorted<T(!new)>(cmp: (T, T) -> Ordering, s: seq<T>)
    requires WeakOrder(cmp)
    ensures Sorted(cmp, Sort(cmp, s))
  {
    if s != [] {
      SortSorted(cmp, s[1..]);
      InsertSorted(cmp, s[0], Sort(cmp, s[1..]));
    }
  }

  /** Sorting what is sorted changes nothing, ties included. */
  lemma {:induction false} SortFixed<T>(cmp: (T, T) -> Ordering, s: seq<T>)
    requires Sorted(cmp, s)
    ensures Sort(cmp, s) == s
  {
    if s != [] {
      SortFixed(cmp, s[1..]);
      assert s == [s[0]] + s[1..];
    }
  }

  lemma TailMultiset<T>(s: seq<T>)
    requires s != []
    ensures multiset(s[1..]) == multiset(s) - multiset{s[0]}
  {
    assert s == [s[0]] + s[1..];
  }

  lemma HeadLowest<T(!new)>(cmp: (T, T) -> Ordering, s: seq<T>, x: T)
    requires WeakOrder(cmp) && Sorted(cmp, s) && x in s
    ensures cmp(s[0], x) != Greater
  {
    var i :| 0 <= i < |s| && s[i] == x;
  }

  lemma SortedTail<T>(cmp: (T, T) -> Ordering, s: seq<T>)
    requires s != [] && Sorted(cmp, s)
    ensures Sorted(cmp, s[1..])
  {
  }

  ghost predicate NoTies<T>(cmp: (T, T) -> Ordering, s: seq<T>) {
    forall x, y | x in s && y in s :: cmp(x, y) == Equal ==> x == y
  }

  /** Without ties between different elements, there is one sorted arrangement. */
  lemma {:induction false} SortedUnique<T(!new)>(cmp: (T, T) -> Ordering, a: seq<T>, b: seq<T>)
    requires WeakOrder(cmp) && Sorted(cmp, a) && Sorted(cmp, b)
    requires multiset(a) == multiset(b)
    requires NoTies(cmp, a)
    ensures a == b
  {
    SameMembers(a, b);
    if a != [] {
      HeadLowest(cmp, a, b[0]);
      HeadLowest(cmp, b, a[0]);
      assert a[0] == b[0];
      TailMultiset(a);
      TailMultiset(b);
      SortedTail(cmp, a);
      SortedTail(cmp, b);
      assert NoTies(cmp, a[1..]);
      SortedUnique(cmp, a[1..], b[1..]);
      assert a == [a[0]] + a[1..] && b == [b[0]] + b[1..];
    }
  }

  /** Sorting forgets the order it is given, if no two different elements tie. */
  lemma SortPermuted<T(!new)>(cmp: (T, T) -> Ordering, s: seq<T>, t: seq<T>)
    requires WeakOrder(cmp) && multiset(s) == multiset(t)
    requires NoTies(cmp, s)
    ensures Sort(cmp, s) == Sort(cmp, t)
  {
    SortElements(cmp, s);
    SortElements(cmp, t);
    SortSorted(cmp, s);
    SortSorted(cmp, t);
    SameMembers(s, Sort(cmp, s));
    SortedUnique(cmp, Sort(cmp, s), Sort(cmp, t));
  }
}
