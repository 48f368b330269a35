/** Semantic versions and their precedence (section 11 of SemVer 2.0.0). */
module SemVer {
  import opened Common
  import opened Orderings

  datatype Identifier = Numeric(n: nat) | Alphanumeric(text: string)

  datatype Core = Core(major: nat, minor: nat, patch: nat, pre: seq<Identifier>)

  datatype Version = Version(core: Core, build: string)

  /** Parsing and printing versions. */
  datatype Codec = Codec(parse: string -> Option<Version>, show: Version -> string)

  predicate ParsesBack(lib: Codec, v: Version) { lib.parse(lib.show(v)) == Some(v) }

  /** The library's promise: a version that came from parsing is printed so that it parses back. */
  ghost predicate RoundTrips(lib: Codec) { forall s :: lib.parse(s).Some? ==> ParsesBack(lib, lib.parse(s).value) }

  function CompareIdentifier(a: Identifier, b: Identifier): Ordering {
    match (a, b)
    case (Numeric(n), Numeric(m)) => CompareInt(n, m)
    case (Numeric(_), Alphanumeric(_)) => Less
    case (Alphanumeric(_), Numeric(_)) => Greater
    case (Alphanumeric(s), Alphanumeric(t)) => CompareString(s, t)
  }

  /** A version without pre-release identifiers is above every one with them. */
  function ComparePre(a: seq<Identifier>, b: seq<Identifier>): Ordering {
    if a == [] && b == [] then Equal
    else if a == [] then Greater
    else if b == [] then Less
    else Lex(CompareIdentifier, a, b)
  }

  function Compare(a: Core, b: Core): Ordering {
    CompareInt(a.major, b.major)
      .Then(CompareInt(a.minor, b.minor))
      .Then(CompareInt(a.patch, b.patch))
      .Then(ComparePre(a.pre, b.pre))
  }

  lemma IdentifierOrder()
    ensures TotalOrder(CompareIdentifier)
  {
    StringOrder();
    forall a, b, c | CompareIdentifier(a, b) != Greater && CompareIdentifier(b, c) != Greater
      ensures CompareIdentifier(a, c) != Greater
    {
      if a.Alphanumeric? && b.Alphanumeric? && c.Alphanumeric? {
        assert CompareString(a.text, b.text) != Greater && CompareString(b.text, c.text) != Greater;
      }
    }
  }

  lemma PreOrder()
    ensures TotalOrder(ComparePre)
  {
    IdentifierOrder();
    forall a, b {
      LexPair(CompareIdentifier, a, b);
    }
    forall a, b, c | ComparePre(a, b) != Greater && ComparePre(b, c) != Greater
      ensures ComparePre(a, c) != Greater
    {
      if a != [] && b != [] && c != [] {
        LexTransitive(CompareIdentifier, a, b, c);
      }
    }
  }

  /** Precedence is a total order on versions without build metadata. */
  lemma PrecedenceOrder()
    ensures TotalOrder(Compare)
  {
    PreOrder();
    forall a: Core, b: Core
      ensures Compare(a, b) == Less <==> Compare(b, a) == Greater
    {
      assert ComparePre(a.pre, b.pre) == Less <==> ComparePre(b.pre, a.pre) == Greater;
    }
    forall a, b, c | Compare(a, b) != Greater && Compare(b, c) != Greater
      ensures Compare(a, c) != Greater
    {
      if ComparePre(a.pre, b.pre) != Greater && ComparePre(b.pre, c.pre) != Greater {
        assert ComparePre(a.pre, c.pre) != Greater;
      }
    }
  }

  // ---- the clauses of section 11 ----

  /** Numbers by value, text by code point, a number below any text. */
  ghost predicate IdentifierBelow(a: Identifier, b: Identifier) {
    || (a.Numeric? && b.Numeric? && a.n < b.n)
    || (a.Numeric? && b.Alphanumeric?)
    || (a.Alphanumeric? && b.Alphanumeric? && StringBelow(a.text, b.text))
  }

  /** With pre-release identifiers is below without; the first difference decides; the shorter list is below. */
  ghost predicate PreBelow(a: seq<Identifier>, b: seq<Identifier>) {
    a != [] && (b == [] || LexBelow((x, y) => IdentifierBelow(x, y), a, b))
  }

  /** The first difference among major, minor and patch decides, then the pre-release identifiers. */
  ghost predicate PrecedenceBelow(a: Core, b: Core) {
    || a.major < b.major
    || (a.major == b.major && a.minor < b.minor)
    || (a.major == b.major && a.minor == b.minor && a.patch < b.patch)
    || (a.major == b.major && a.minor == b.minor && a.patch == b.patch && PreBelow(a.pre, b.pre))
  }

  lemma IdentifierBelowIff(a: Identifier, b: Identifier)
    ensures CompareIdentifier(a, b) == Less <==> IdentifierBelow(a, b)
  {
    if a.Alphanumeric? && b.Alphanumeric? {
      StringBelowIff(a.text, b.text);
    }
  }

  lemma PreBelowIff(a: seq<Identifier>, b: seq<Identifier>)
    ensures ComparePre(a, b) == Less <==> PreBelow(a, b)
  {
    IdentifierOrder();
    forall x, y
      ensures CompareIdentifier(x, y) == Less <==> IdentifierBelow(x, y)
    {
      IdentifierBelowIff(x, y);
    }
    LexIff(CompareIdentifier, (x, y) => IdentifierBelow(x, y), a, b);
  }

  /** The comparison is precedence as section 11 defines it, and only the same version ties. */
  lemma PrecedenceIs(a: Core, b: Core)
    ensures Compare(a, b) == Less <==> PrecedenceBelow(a, b)
    ensures Compare(a, b) == Greater <==> PrecedenceBelow(b, a)
    ensures Compare(a, b) == Equal <==> a == b
  {
    PreBelowIff(a.pre, b.pre);
    PreBelowIff(b.pre, a.pre);
    PrecedenceOrder();
    assert Compare(b, a) == Less <==> Compare(a, b) == Greater;
    assert Compare(a, a) == Less <==> Compare(a, a) == Greater;
  }

  /** Strictly below-than goes along chains. */
  lemma GreaterTransitive(a: Core, b: Core, c: Core)
    requires Compare(a, b) == Greater && Compare(b, c) == Greater
    ensures Compare(a, c) == Greater
  {
    PrecedenceOrder();
    assert Compare(b, a) == Less && Compare(c, b) == Less;
    assert Compare(c, a) != Greater;
    if Compare(c, a) == Equal {
      assert a == c;
    }
  }
}
