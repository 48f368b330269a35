/** Directory names for installed projects: core/src/iri_normalize.rs and its use in the environment. */
module Filename {
  import opened Common
  import opened Chars
  import opened Utf8
  import Decoder
  import Purl
  import Sanitizer
  import opened VersionName

  const MAX_IRI_LEN_BYTES: nat := 120
  const U32_MAX: nat := 0xFFFF_FFFF

  /** A normalised IRI as the IRI library takes it apart. */
  datatype CanonicalIri = CanonicalIri(
    text: string,
    host: Option<string>,
    path: seq<Decoder.Chunk>,
    query: Option<seq<Decoder.Chunk>>)

  predicate ChunksFit(chunks: seq<Decoder.Chunk>) {
    forall c | c in chunks :: c.Unencoded? ==> c.text != ""
  }

  predicate IriFits(iri: CanonicalIri) {
    ChunksFit(iri.path) && (iri.query.Some? ==> ChunksFit(iri.query.value))
  }

  /** One host label, decoded from Punycode where that succeeds. */
  function LabelText(punycode: string -> Option<string>, part: string): string {
    if "xn--" <= part && punycode(part[4..]).Some? then punycode(part[4..]).value else part
  }

  function HostText(punycode: string -> Option<string>, labels: seq<string>): string {
    if labels == [] then ""
    else HostText(punycode, labels[..|labels| - 1]) + LabelText(punycode, labels[|labels| - 1]) + "."
  }

  /** The host with its labels decoded, and the `-` that sets it off. */
  function HostPart(punycode: string -> Option<string>, host: Option<string>): string {
    if host.Some? && host.value != "" then
      var h := HostText(punycode, Split(host.value, '.'));
      (if h == "" then "" else h[..|h| - 1]) + "-"
    else ""
  }

  function WithoutKpar(s: string): string {
    if |s| >= 5 && s[|s| - 5..] == ".kpar" then s[..|s| - 5] else s
  }

  function WithQuery(s: string, query: Option<seq<Decoder.Chunk>>): string {
    if query.Some? then s + "-" + Lossy(Decoder.Bytes(query.value)) else s
  }

  /** Host, path and query before trimming. */
  function RawText(punycode: string -> Option<string>, iri: CanonicalIri): string {
    WithQuery(WithoutKpar(HostPart(punycode, iri.host) + Lossy(Decoder.Bytes(iri.path))), iri.query)
  }

  function FilenamePart(u: Unicode, punycode: string -> Option<string>, iri: CanonicalIri): string {
    match Purl.ParsePurl(iri.text)
    case Purl(publisher, name) => publisher + "-" + name
    case _ =>
      var trimmed := TrimEnd(u.ignorable, TrimStart(u.ignorable, RawText(punycode, iri)));
      TrimEnd(u.ignorable, FloorBytes(u.nfc(u.fold(Sanitizer.Sanitize(trimmed))), MAX_IRI_LEN_BYTES))
  }

  method ExtendHost(punycode: string -> Option<string>, host: Option<string>) returns (result: string)
    ensures result == HostPart(punycode, host)
  {
    result := "";
    if host.Some? && host.value != "" {
      var labels := Split(host.value, '.');
      for i := 0 to |labels|
        invariant result == HostText(punycode, labels[..i])
      {
        assert labels[..i + 1][..i] == labels[..i];
        result := result + LabelText(punycode, labels[i]) + ".";
      }
      assert labels[..|labels|] == labels;
      result := result[..|result| - 1];
      result := result + "-";
    }
  }

  method ExtendPathAndQuery(host: string, iri: CanonicalIri) returns (result: string)
    requires IriFits(iri)
    ensures result == WithQuery(WithoutKpar(host + Lossy(Decoder.Bytes(iri.path))), iri.query)
  {
    result := Decoder.ExtendDecodeStripInvalid(host, iri.path);
    if |result| >= 5 && result[|result| - 5..] == ".kpar" {
      result := result[..|result| - 5];
    }
    if iri.query.Some? {
      result := result + "-";
      result := Decoder.ExtendDecodeStripInvalid(result, iri.query.value);
    }
  }

  method IriToFilenamePart(u: Unicode, punycode: string -> Option<string>, iri: CanonicalIri) returns (r: string)
    requires IriFits(iri)
    ensures r == FilenamePart(u, punycode, iri)
  {
    var parsed := Purl.ParsePurl(iri.text);
    if parsed.Purl? {
      return parsed.publisher + "-" + parsed.name;
    }
    var result := ExtendHost(punycode, iri.host);
    result := ExtendPathAndQuery(result, iri);
    result := TrimEnd(u.ignorable, TrimStart(u.ignorable, result));
    var sanitized := Sanitizer.SanitizeLoop(result);
    var truncated := FloorBytes(u.nfc(u.fold(sanitized)), MAX_IRI_LEN_BYTES);
    r := TrimEnd(u.ignorable, truncated);
  }

  /** A name of at most `limit` bytes that does not end in anything that is trimmed. */
  predicate NameFits(ignorable: char -> bool, r: string, limit: nat) {
    && ByteLen(r) <= limit
    && (r != "" ==> IsAsciiAlphanumeric(r[|r| - 1]) || !IsTrimmed(ignorable, r[|r| - 1]))
  }

  lemma CutFits(ignorable: char -> bool, s: string, limit: nat)
    ensures NameFits(ignorable, TrimEnd(ignorable, FloorBytes(s, limit)), limit)
  {
    ByteLenPrefix(TrimEnd(ignorable, FloorBytes(s, limit)), FloorBytes(s, limit));
  }

  lemma ValidPartAscii(s: string, kind: Purl.FieldKind)
    requires Purl.IsValidPart(s, kind)
    ensures ByteLen(s) <= 50 && IsAsciiAlphanumeric(s[|s| - 1])
  {
    ByteLenAscii(s);
  }

  lemma PurlFits(ignorable: char -> bool, publisher: string, name: string)
    requires Purl.IsValidPart(publisher, Purl.Publisher) && Purl.IsValidPart(name, Purl.Name)
    ensures NameFits(ignorable, publisher + "-" + name, MAX_IRI_LEN_BYTES)
  {
    ValidPartAscii(publisher, Purl.Publisher);
    ValidPartAscii(name, Purl.Name);
    ByteLenAscii("-");
    ByteLenConcat(publisher, "-");
    ByteLenConcat(publisher + "-", name);
  }

  /** At most 120 bytes, and it does not end in anything that is trimmed. */
  lemma FilenamePartFits(u: Unicode, punycode: string -> Option<string>, iri: CanonicalIri)
    ensures NameFits(u.ignorable, FilenamePart(u, punycode, iri), 120)
  {
    var parsed := Purl.ParsePurl(iri.text);
    if parsed.Purl? {
      Purl.ParseIff(iri.text, parsed.publisher, parsed.name);
      PurlFits(u.ignorable, parsed.publisher, parsed.name);
    } else {
      var trimmed := TrimEnd(u.ignorable, TrimStart(u.ignorable, RawText(punycode, iri)));
      CutFits(u.ignorable, u.nfc(u.fold(Sanitizer.Sanitize(trimmed))), MAX_IRI_LEN_BYTES);
    }
  }

  // ---- candidate names ----

  function Digit(n: nat): char
    requires n < 10
  {
    ('0' as int + n) as char
  }

  function Decimal(n: nat): (s: string)
    ensures s != "" && forall c | c in s :: '0' <= c <= '9'
  {
    if n < 10 then [Digit(n)] else Decimal(n / 10) + [Digit(n % 10)]
  }

  lemma {:induction false} DecimalInjective(n: nat, m: nat)
    requires Decimal(n) == Decimal(m)
    ensures n == m
  {
    var s, t := Decimal(n), Decimal(m);
    assert s[|s| - 1] == Digit(n % 10) && t[|t| - 1] == Digit(m % 10);
    if n >= 10 && m >= 10 {
      assert s[..|s| - 1] == Decimal(n / 10) && t[..|t| - 1] == Decimal(m / 10);
      DecimalInjective(n / 10, m / 10);
    } else {
      assert n >= 10 ==> |s| >= 2;
      assert m >= 10 ==> |t| >= 2;
    }
  }

  function Power10(k: nat): nat { if k == 0 then 1 else 10 * Power10(k - 1) }

  lemma {:induction false} DecimalLength(n: nat, k: nat)
    requires k > 0 && n < Power10(k)
    ensures |Decimal(n)| <= k
  {
    if n >= 10 {
      assert Power10(k) == 10 * Power10(k - 1);
      assert k > 1 by {
        assert Power10(1) == 10 * Power10(0);
      }
      DecimalLength(n / 10, k - 1);
    }
  }

  /** The `n`th name: `<stem>[_<n>]_<version>`. */
  function Candidate(stem: string, version: string, n: nat): string {
    stem + "_" + (if n == 0 then "" else Decimal(n) + "_") + version
  }

  lemma CandidatesDistinct(stem: string, version: string, n: nat, m: nat)
    requires Candidate(stem, version, n) == Candidate(stem, version, m)
    ensures n == m
  {
    var a, b := Candidate(stem, version, n), Candidate(stem, version, m);
    var from, to := |stem| + 1, |version|;
    if n > 0 && m > 0 {
      assert a[from..|a| - to - 1] == Decimal(n);
      assert b[from..|b| - to - 1] == Decimal(m);
      DecimalInjective(n, m);
    } else {
      assert |a| == |stem| + 1 + (if n == 0 then 0 else |Decimal(n)| + 1) + |version|;
      assert |b| == |stem| + 1 + (if m == 0 then 0 else |Decimal(m)| + 1) + |version|;
    }
  }

  lemma CandidateBytes(stem: string, version: string, n: nat)
    requires n <= U32_MAX
    ensures ByteLen(Candidate(stem, version, n)) <= ByteLen(stem) + ByteLen(version) + 12
  {
    var number := if n == 0 then "" else Decimal(n) + "_";
    assert Power10(10) == 10_000_000_000 by {
      assert Power10(5) == 100_000;
      assert Power10(7) == 10_000_000;
      assert Power10(9) == 1_000_000_000;
    }
    DecimalLength(n, 10);
    ByteLenAscii("_");
    ByteLenAscii(number);
    ByteLenConcat(stem, "_");
    ByteLenConcat(stem + "_", number);
    ByteLenConcat(stem + "_" + number, version);
  }

  /** What follows the last `_` of `s`; all of `s` if it has none. */
  function AfterLastUnderscore(s: string): string {
    if s == "" then "" else if s[|s| - 1] == '_' then "" else AfterLastUnderscore(s[..|s| - 1]) + [s[|s| - 1]]
  }

  lemma {:induction false} AfterLastIs(head: string, v: string)
    requires '_' !in v
    ensures AfterLastUnderscore(head + "_" + v) == v
  {
    var s := head + "_" + v;
    if v != "" {
      assert s[..|s| - 1] == head + "_" + v[..|v| - 1];
      assert v[|v| - 1] in v;
      AfterLastIs(head, v[..|v| - 1]);
    }
  }

  lemma CandidateEnd(stem: string, v: string, n: nat)
    requires '_' !in v
    ensures AfterLastUnderscore(Candidate(stem, v, n)) == v
  {
    var head := if n == 0 then stem else stem + "_" + Decimal(n);
    AfterLastIs(head, v);
    assert Candidate(stem, v, n) == head + "_" + v;
  }

  lemma VersionHasNoUnderscore(u: Unicode, version: string)
    ensures '_' !in NormalizedVersion(u, version)
  {
    VersionOutput(u, version);
    assert IsAscii('_') && !IsAsciiAlphanumeric('_') && !IsMark('_');
  }

  /** Every name made from an IRI and a version fits in 162 bytes and ends in the version. */
  lemma CandidateShape(u: Unicode, punycode: string -> Option<string>, iri: CanonicalIri, version: string, n: nat)
    requires n <= U32_MAX
    ensures ByteLen(Candidate(FilenamePart(u, punycode, iri), NormalizedVersion(u, version), n)) <= 162
    ensures AfterLastUnderscore(Candidate(FilenamePart(u, punycode, iri), NormalizedVersion(u, version), n))
         == NormalizedVersion(u, version)
  {
    var stem, v := FilenamePart(u, punycode, iri), NormalizedVersion(u, version);
    assert ByteLen(stem) <= 120 by { FilenamePartFits(u, punycode, iri); }
    assert ByteLen(v) <= 30 by { VersionOutput(u, version); }
    CandidateBytes(stem, v, n);
    VersionHasNoUnderscore(u, version);
    CandidateEnd(stem, v, n);
  }

  /** Cutting back to the bytes of `a` leaves `a`. */
  lemma {:induction false} FloorAtBoundary(a: string, b: string)
    ensures FloorBytes(a + b, ByteLen(a)) == a
  {
    if a == "" {
      assert a + b == b;
    } else {
      assert (a + b)[0] == a[0] && (a + b)[1..] == a[1..] + b;
      FloorAtBoundary(a[1..], b);
    }
  }

  /** Cutting a name back to the bytes of its stem makes room for the next number. */
  lemma CandidateStem(stem: string, version: string, n: nat)
    ensures FloorBytes(Candidate(stem, version, n), ByteLen(stem + "_")) == stem + "_"
  {
    var tail := (if n == 0 then "" else Decimal(n) + "_") + version;
    FloorAtBoundary(stem + "_", tail);
    assert Candidate(stem, version, n) == stem + "_" + tail;
  }

  lemma NumberedCandidate(stem: string, version: string, n: nat)
    ensures Candidate(stem, version, n) == if n == 0 then stem + "_" + version
              else stem + "_" + Decimal(n) + "_" + version
  {
    assert stem + "_" + "" == stem + "_";
    assert stem + "_" + (Decimal(n) + "_") == stem + "_" + Decimal(n) + "_";
  }

  class IriVersionFilename {
    var filename: string
    var version: string
    var iriEndIdx: nat
    var disambiguationNumber: nat
    ghost const stem: string

    ghost predicate Valid()
      reads this
    {
      && iriEndIdx == ByteLen(stem + "_")
      && disambiguationNumber <= U32_MAX
      && filename == if disambiguationNumber == 0 then stem + "_"
                     else Candidate(stem, version, disambiguationNumber - 1)
    }

    constructor (u: Unicode, punycode: string -> Option<string>, iri: CanonicalIri, version: string)
      requires IriFits(iri)
      ensures Valid() && disambiguationNumber == 0
      ensures stem == FilenamePart(u, punycode, iri)
      ensures this.version == NormalizedVersion(u, version)
    {
      var normalizedIri := IriToFilenamePart(u, punycode, iri);
      var normalizedVersion := NormalizeVersion(u, version);
      stem := normalizedIri;
      filename := normalizedIri + "_";
      this.version := normalizedVersion;
      iriEndIdx := ByteLen(normalizedIri + "_");
      disambiguationNumber := 0;
    }

    method NextCandidate() returns (name: string)
      requires Valid() && disambiguationNumber < U32_MAX
      modifies `filename, `disambiguationNumber
      ensures Valid() && disambiguationNumber == old(disambiguationNumber) + 1
      ensures name == filename == Candidate(stem, version, old(disambiguationNumber))
    {
      if disambiguationNumber == 0 {
        filename := filename + version;
        NumberedCandidate(stem, version, 0);
      } else {
        CandidateStem(stem, version, disambiguationNumber - 1);
        filename := FloorBytes(filename, iriEndIdx);
        filename := filename + Decimal(disambiguationNumber) + "_" + version;
        NumberedCandidate(stem, version, disambiguationNumber);
      }
      disambiguationNumber := disambiguationNumber + 1;
      name := filename;
    }
  }

  /** The first `n` names. */
  function FirstCandidates(stem: string, version: string, n: nat): set<string> {
    set k: nat | k < n :: Candidate(stem, version, k)
  }

  /** They are `n` different ones. */
  lemma {:induction false} FirstCandidatesCount(stem: string, version: string, n: nat)
    ensures |FirstCandidates(stem, version, n)| == n
  {
    if n > 0 {
      FirstCandidatesCount(stem, version, n - 1);
      var next := Candidate(stem, version, n - 1);
      assert next !in FirstCandidates(stem, version, n - 1) by {
        forall k: nat | k < n - 1
          ensures Candidate(stem, version, k) != next
        {
          if Candidate(stem, version, k) == next {
            CandidatesDistinct(stem, version, k, n - 1);
          }
        }
      }
      assert FirstCandidates(stem, version, n) == FirstCandidates(stem, version, n - 1) + {next};
    }
  }

  lemma SubsetCount(a: set<string>, b: set<string>)
    requires a <= b
    ensures |a| <= |b|
  {
    if a != {} {
      var x :| x in a;
      SubsetCount(a - {x}, b - {x});
    }
  }

  /** Of any `N` names taken, one of the first `N + 1` candidates is free. */
  lemma SomeCandidateFree(stem: string, version: string, taken: set<string>)
    ensures exists k: nat :: k <= |taken| && Candidate(stem, version, k) !in taken
  {
    var n := |taken| + 1;
    if forall k: nat | k < n :: Candidate(stem, version, k) in taken {
      FirstCandidatesCount(stem, version, n);
      SubsetCount(FirstCandidates(stem, version, n), taken);
    }
  }

  /** `compute_project_path`: the first free candidate, found within `N + 1` calls. */
  method ComputeProjectPath(names: IriVersionFilename, taken: set<string>) returns (candidate: string)
    requires names.Valid() && names.disambiguationNumber == 0
    requires |taken| < U32_MAX
    modifies names
    ensures candidate !in taken
    ensures exists k: nat :: k <= |taken| && candidate == Candidate(names.stem, old(names.version), k)
              && forall j: nat | j < k :: Candidate(names.stem, old(names.version), j) in taken
  {
    var version := names.version;
    SomeCandidateFree(names.stem, version, taken);
    ghost var free: nat :| free <= |taken| && Candidate(names.stem, version, free) !in taken;
    candidate := names.NextCandidate();
    while candidate in taken
      invariant names.Valid() && names.version == version
      invariant 1 <= names.disambiguationNumber <= free + 1
      invariant candidate == Candidate(names.stem, version, names.disambiguationNumber - 1)
      invariant forall j: nat | j < names.disambiguationNumber - 1 :: Candidate(names.stem, version, j) in taken
      decreases free + 1 - names.disambiguationNumber
    {
      candidate := names.NextCandidate();
    }
  }
}
