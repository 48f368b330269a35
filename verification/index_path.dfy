/** Where an identifier lives in an index (core/src/index/iri.rs). */
module IndexPath {
  import opened Common
  import opened Purl

  /** IRI parsing with canonicalisation, and the SHA-256 digest. */
  datatype Library = Library(canonicalize: string -> Option<string>, digest: string -> string)

  datatype ParsedIri = Sysand(publisher: string, name: string) | Other(normalizedIri: string)

  datatype Routed = Routed(parsed: ParsedIri) | MalformedIri | MalformedSysandPurl(error: PurlError)

  function ParseIri(lib: Library, iri: string): Routed {
    match ParsePurl(iri)
    case Purl(publisher, name) => Routed(Sysand(publisher, name))
    case NotPurl =>
      (match lib.canonicalize(iri)
       case Some(normalized) => Routed(Other(normalized))
       case None => MalformedIri)
    case Malformed(e) => MalformedSysandPurl(e)
  }

  function GetPath(lib: Library, p: ParsedIri): string {
    match p
    case Sysand(publisher, name) => publisher + "/" + name
    case Other(normalized) => "_iri" + "/" + lib.digest(normalized)
  }

  function GetIri(p: ParsedIri): string {
    match p
    case Sysand(publisher, name) => Print(publisher, name)
    case Other(normalized) => normalized
  }

  lemma SameFirstSegment(a: string, b: string, c: string, d: string)
    requires '/' !in a && '/' !in c && a + "/" + b == c + "/" + d
    ensures a == c && b == d
  {
    var s, t := a + "/" + b, c + "/" + d;
    assert s[|a|] == '/' && t[|c|] == '/';
    assert forall i | 0 <= i < |a| :: s[i] == a[i] && a[i] in a;
    assert forall i | 0 <= i < |c| :: t[i] == c[i] && c[i] in c;
    assert |a| == |c|;
    assert s[..|a|] == a && t[..|c|] == c && s[|a| + 1..] == b && t[|c| + 1..] == d;
  }

  /**
   * Two identifiers share a path only if they are the same, or both are in the `_iri` bucket
   * and their digests collide: publisher/name directories never meet each other or the bucket.
   */
  lemma PathsInjective(lib: Library, iri1: string, iri2: string)
    requires ParseIri(lib, iri1).Routed? && ParseIri(lib, iri2).Routed?
    ensures var p1, p2 := ParseIri(lib, iri1).parsed, ParseIri(lib, iri2).parsed;
            GetPath(lib, p1) == GetPath(lib, p2) <==>
              p1 == p2 || (p1.Other? && p2.Other? && lib.digest(p1.normalizedIri) == lib.digest(p2.normalizedIri))
  {
    var p1, p2 := ParseIri(lib, iri1).parsed, ParseIri(lib, iri2).parsed;
    if GetPath(lib, p1) == GetPath(lib, p2) {
      if p1.Sysand? {
        ParseIff(iri1, p1.publisher, p1.name);
        ValidPartHasNoSlash(p1.publisher, Publisher);
      }
      if p2.Sysand? {
        ParseIff(iri2, p2.publisher, p2.name);
        ValidPartHasNoSlash(p2.publisher, Publisher);
      }
      SameFirstSegment(if p1.Sysand? then p1.publisher else "_iri",
                       if p1.Sysand? then p1.name else lib.digest(p1.normalizedIri),
                       if p2.Sysand? then p2.publisher else "_iri",
                       if p2.Sysand? then p2.name else lib.digest(p2.normalizedIri));
    }
  }

  /** Printing a Sysand identifier and parsing it again returns it, however its scheme was spelled. */
  lemma SysandRoundTrip(lib: Library, iri: string)
    requires ParseIri(lib, iri).Routed? && ParseIri(lib, iri).parsed.Sysand?
    ensures ParseIri(lib, GetIri(ParseIri(lib, iri).parsed)) == ParseIri(lib, iri)
  {
    var p := ParseIri(lib, iri).parsed;
    ParseIff(iri, p.publisher, p.name);
    PrintThenParse(p.publisher, p.name);
  }

  /**
   * For every other identifier the round trip holds exactly when its canonical form is its own
   * canonical form and does not carry the `pkg:sysand/` prefix. It can carry it: the prefix is
   * looked for before canonicalisation decodes percent-encoded letters.
   */
  lemma OtherRoundTripIff(lib: Library, iri: string)
    requires ParseIri(lib, iri).Routed? && ParseIri(lib, iri).parsed.Other?
    ensures var p := ParseIri(lib, iri).parsed;
            ParseIri(lib, GetIri(p)) == Routed(p) <==>
              lib.canonicalize(p.normalizedIri) == Some(p.normalizedIri) && !HasPrefix(p.normalizedIri)
  {
    var n := ParseIri(lib, iri).parsed.normalizedIri;
    assert ParsePurl(n) == NotPurl <==> !HasPrefix(n);
  }

  lemma EscapedHasNoPrefix(s: string)
    requires |s| > 4 && s[4] == '%'
    ensures !HasPrefix(s)
  {
    assert |s| >= 11 ==> s[3..11][1] == '%';
    assert ":sysand/"[1] == 's';
  }

  /** `pkg:%73ysand/acme/tool` goes to the hash bucket, its canonical form to `acme/tool`. */
  lemma EscapedPrefixMovesBucket(lib: Library, publisher: string, name: string)
    requires IsValidPart(publisher, Publisher) && IsValidPart(name, Name)
    requires lib.canonicalize("pkg:%73ysand/" + publisher + "/" + name) == Some(Print(publisher, name))
    ensures ParseIri(lib, "pkg:%73ysand/" + publisher + "/" + name) == Routed(Other(Print(publisher, name)))
    ensures ParseIri(lib, Print(publisher, name)) == Routed(Sysand(publisher, name))
  {
    EscapedHasNoPrefix("pkg:%73ysand/" + publisher + "/" + name);
    PrintThenParse(publisher, name);
  }

  /** The path of a Sysand identifier is its package URL without the prefix. */
  lemma SysandPathIs(lib: Library, iri: string)
    requires ParseIri(lib, iri).Routed? && ParseIri(lib, iri).parsed.Sysand?
    ensures GetPath(lib, ParseIri(lib, iri).parsed) == iri[11..]
  {
    var p := ParseIri(lib, iri).parsed;
    ParseIff(iri, p.publisher, p.name);
  }

  /** Any other identifier is filed under the digest of its canonical form. */
  lemma OtherPathIs(lib: Library, iri: string)
    requires ParseIri(lib, iri).Routed? && ParseIri(lib, iri).parsed.Other?
    ensures !HasPrefix(iri) && lib.canonicalize(iri).Some?
    ensures GetPath(lib, ParseIri(lib, iri).parsed) == "_iri/" + lib.digest(lib.canonicalize(iri).value)
  {
    assert "_iri" + "/" == "_iri/";
  }

  /** A malformed package URL is not taken for another IRI, and those fail only if they cannot be canonicalised. */
  lemma UnroutedIff(lib: Library, iri: string)
    ensures ParseIri(lib, iri) == MalformedIri <==> !HasPrefix(iri) && lib.canonicalize(iri).None?
    ensures forall e :: ParseIri(lib, iri) == MalformedSysandPurl(e) <==> ParsePurl(iri) == Malformed(e)
  {
  }
}
