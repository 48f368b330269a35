/** Validation of `versions.json` and what is served from it (core/src/env/index.rs). */
module IndexVersions {
  import opened Common
  import opened Orderings
  import opened SemVer

  datatype Status = Available | Yanked | Removed

  datatype VersionEntry = VersionEntry(
      version: string, usage: seq<string>, kparSize: nat, kparDigest: string, status: Status)

  /** An entry after validation. */
  datatype Advertised = Advertised(
      version: Version, usage: seq<string>, kparSize: nat, kparDigest: string, status: Status)

  datatype IndexError =
    | Fetch
    | InvalidSemver(value: string)
    | BuildMetadata(value: string)
    | InvalidDigest(entry: string, value: string)
    | Duplicate(version: Version)
    | OutOfOrder(prev: Version, curr: Version)
    | VersionNotInIndex(requested: string)
    | ProjectNotInIndex
    | VersionRemoved(version: Version)

  predicate IsLowerHex(s: string) { forall c | c in s :: '0' <= c <= '9' || 'a' <= c <= 'f' }

  function TryDigest(raw: string): Option<string> {
    if !("sha256:" <= raw) then None
    else if |raw[7..]| != 64 || !IsLowerHex(raw[7..]) then None
    else Some(raw[7..])
  }

  /** Exactly 64 lower-case hex digits after the prefix are a digest, and the prefix puts it back. */
  lemma DigestIff(raw: string, hex: string)
    ensures TryDigest(raw) == Some(hex) <==> raw == "sha256:" + hex && |hex| == 64 && IsLowerHex(hex)
  {
    if "sha256:" <= raw {
      assert raw == "sha256:" + raw[7..];
    }
    assert ("sha256:" + hex)[7..] == hex;
  }

  function Ingest(lib: Codec, e: VersionEntry): Result<Advertised, IndexError> {
    match lib.parse(e.version)
    case None => Err(InvalidSemver(e.version))
    case Some(v) =>
      if v.build != "" then Err(BuildMetadata(e.version))
      else
        match TryDigest(e.kparDigest)
        case None => Err(InvalidDigest(e.version, e.kparDigest))
        case Some(hex) => Ok(Advertised(v, e.usage, e.kparSize, hex, e.status))
  }

  function IngestAll(lib: Codec, entries: seq<VersionEntry>): Result<seq<Advertised>, IndexError> {
    if entries == [] then Ok([])
    else
      match Ingest(lib, entries[0])
      case Err(e) => Err(e)
      case Ok(a) =>
        match IngestAll(lib, entries[1..])
        case Err(e) => Err(e)
        case Ok(rest) => Ok([a] + rest)
  }

  /** The first version from `i` on that came before. */
  function FirstRepeat(vs: seq<Advertised>, i: nat): Option<Version>
    requires i <= |vs|
    decreases |vs| - i
  {
    if i == |vs| then None
    else if exists j | 0 <= j < i :: vs[j].version == vs[i].version then Some(vs[i].version)
    else FirstRepeat(vs, i + 1)
  }

  /** The first neighbours from `i` on that are not descending. */
  function FirstRise(vs: seq<Advertised>, i: nat): Option<(Version, Version)>
    decreases |vs| - i
  {
    if i + 1 >= |vs| then None
    else if Compare(vs[i].version.core, vs[i + 1].version.core) != Greater then Some((vs[i].version, vs[i + 1].version))
    else FirstRise(vs, i + 1)
  }

  function Validate(lib: Codec, entries: seq<VersionEntry>): Result<seq<Advertised>, IndexError> {
    match IngestAll(lib, entries)
    case Err(e) => Err(e)
    case Ok(vs) =>
      match FirstRepeat(vs, 0)
      case Some(v) => Err(Duplicate(v))
      case None =>
        match FirstRise(vs, 0)
        case Some(pair) => Err(OutOfOrder(pair.0, pair.1))
        case None => Ok(vs)
  }

  lemma {:induction false} IngestAllIs(lib: Codec, entries: seq<VersionEntry>, done: seq<Advertised>)
    requires |done| == |entries| && forall k | 0 <= k < |done| :: Ingest(lib, entries[k]) == Ok(done[k])
    ensures IngestAll(lib, entries) == Ok(done)
  {
    if entries != [] {
      IngestAllIs(lib, entries[1..], done[1..]);
      assert done == [done[0]] + done[1..];
    }
  }

  lemma {:induction false} IngestFails(lib: Codec, entries: seq<VersionEntry>, i: nat)
    requires i < |entries| && Ingest(lib, entries[i]).Err?
    requires forall k | 0 <= k < i :: Ingest(lib, entries[k]).Ok?
    ensures IngestAll(lib, entries) == Err(Ingest(lib, entries[i]).error)
  {
    if i > 0 {
      assert Ingest(lib, entries[0]).Ok?;
      IngestFails(lib, entries[1..], i - 1);
    }
  }

  /** `validate_versions`: map every entry, then look for repeats, then at neighbours. */
  method ValidateVersions(lib: Codec, entries: seq<VersionEntry>) returns (r: Result<seq<Advertised>, IndexError>)
    ensures r == Validate(lib, entries)
  {
    var validated: seq<Advertised> := [];
    for i := 0 to |entries|
      invariant |validated| == i
      invariant forall k | 0 <= k < i :: Ingest(lib, entries[k]) == Ok(validated[k])
    {
      match Ingest(lib, entries[i])
      case Err(e) =>
        IngestFails(lib, entries, i);
        return Err(e);
      case Ok(a) =>
        validated := validated + [a];
    }
    IngestAllIs(lib, entries, validated);
    r := CheckOrder(validated);
  }

  method CheckOrder(validated: seq<Advertised>) returns (r: Result<seq<Advertised>, IndexError>)
    ensures r == match FirstRepeat(validated, 0)
                 case Some(v) => Err(Duplicate(v))
                 case None =>
                   match FirstRise(validated, 0)
                   case Some(pair) => Err(OutOfOrder(pair.0, pair.1))
                   case None => Ok(validated)
  {
    var seen: set<Version> := {};
    for i := 0 to |validated|
      invariant seen == set j | 0 <= j < i :: validated[j].version
      invariant FirstRepeat(validated, i) == FirstRepeat(validated, 0)
    {
      if validated[i].version in seen {
        return Err(Duplicate(validated[i].version));
      }
      seen := seen + {validated[i].version};
    }
    var i := 0;
    while i + 1 < |validated|
      invariant FirstRise(validated, i) == FirstRise(validated, 0)
    {
      var v1, v2 := validated[i].version, validated[i + 1].version;
      if Compare(v1.core, v2.core) != Greater {
        return Err(OutOfOrder(v1, v2));
      }
      i := i + 1;
    }
    r := Ok(validated);
  }

  // ---- what is accepted ----

  /** Newest first, for all pairs and not just neighbours. */
  ghost predicate Descending(vs: seq<Advertised>) {
    forall i, j | 0 <= i < j < |vs| :: Compare(vs[i].version.core, vs[j].version.core) == Greater
  }

  lemma {:induction false} IngestAllIff(lib: Codec, entries: seq<VersionEntry>)
    ensures IngestAll(lib, entries).Ok? <==> forall i | 0 <= i < |entries| :: Ingest(lib, entries[i]).Ok?
    ensures var r := IngestAll(lib, entries);
            r.Ok? ==>
              && |r.value| == |entries|
              && forall i | 0 <= i < |entries| :: Ingest(lib, entries[i]) == Ok(r.value[i])
  {
    if entries != [] {
      IngestAllIff(lib, entries[1..]);
      assert forall i | 0 < i < |entries| :: entries[i] == entries[1..][i - 1];
    }
  }

  lemma {:induction false} NoRiseIff(vs: seq<Advertised>, i: nat)
    ensures FirstRise(vs, i).None? <==>
            forall k | i <= k < |vs| - 1 :: Compare(vs[k].version.core, vs[k + 1].version.core) == Greater
    decreases |vs| - i
  {
    if i + 1 < |vs| {
      NoRiseIff(vs, i + 1);
    }
  }

  lemma {:induction false} NeighboursToPairs(vs: seq<Advertised>, i: nat, j: nat)
    requires i < j < |vs|
    requires forall k | 0 <= k < |vs| - 1 :: Compare(vs[k].version.core, vs[k + 1].version.core) == Greater
    ensures Compare(vs[i].version.core, vs[j].version.core) == Greater
    decreases j
  {
    assert Compare(vs[j - 1].version.core, vs[j - 1 + 1].version.core) == Greater;
    if i < j - 1 {
      NeighboursToPairs(vs, i, j - 1);
      GreaterTransitive(vs[i].version.core, vs[j - 1].version.core, vs[j].version.core);
    }
  }

  lemma {:induction false} NoRepeatIff(vs: seq<Advertised>, i: nat)
    requires i <= |vs|
    ensures FirstRepeat(vs, i).None? <==> forall j, k | 0 <= j < k < |vs| && i <= k :: vs[j].version != vs[k].version
    decreases |vs| - i
  {
    if i < |vs| {
      NoRepeatIff(vs, i + 1);
    }
  }

  lemma DescendingHasNoRepeat(vs: seq<Advertised>)
    requires Descending(vs)
    ensures forall j, k | 0 <= j < k < |vs| :: vs[j].version != vs[k].version
  {
    PrecedenceOrder();
    forall j, k | 0 <= j < k < |vs|
      ensures vs[j].version != vs[k].version
    {
      assert Compare(vs[j].version.core, vs[k].version.core) == Greater;
    }
  }

  /**
   * A document is accepted exactly if every entry is well formed and the versions strictly
   * descend, pair by pair; then the entries come out one for one.
   */
  lemma ValidateIff(lib: Codec, entries: seq<VersionEntry>)
    ensures Validate(lib, entries).Ok? <==>
            IngestAll(lib, entries).Ok? && Descending(IngestAll(lib, entries).value)
    ensures Validate(lib, entries).Ok? ==> Validate(lib, entries) == IngestAll(lib, entries)
  {
    var r := IngestAll(lib, entries);
    if r.Ok? {
      NoRepeatIff(r.value, 0);
      NoRiseIff(r.value, 0);
      if Validate(lib, entries).Ok? {
        forall i, j | 0 <= i < j < |r.value|
          ensures Compare(r.value[i].version.core, r.value[j].version.core) == Greater
        {
          NeighboursToPairs(r.value, i, j);
        }
      }
      if Descending(r.value) {
        DescendingHasNoRepeat(r.value);
      }
    }
  }

  predicate WellFormed(lib: Codec, e: VersionEntry) {
    && lib.parse(e.version).Some? && lib.parse(e.version).value.build == ""
    && "sha256:" <= e.kparDigest && |e.kparDigest| == 71 && IsLowerHex(e.kparDigest[7..])
  }

  /** The same in terms of the document: what it must be, and what each entry becomes. */
  lemma DocumentAcceptedIff(lib: Codec, entries: seq<VersionEntry>)
    ensures Validate(lib, entries).Ok? <==>
              && (forall i | 0 <= i < |entries| :: WellFormed(lib, entries[i]))
              && (forall i, j | 0 <= i < j < |entries| ::
                    var a, b := lib.parse(entries[i].version).value, lib.parse(entries[j].version).value;
                    Compare(a.core, b.core) == Greater)
    ensures Validate(lib, entries).Ok? ==>
              && |Validate(lib, entries).value| == |entries|
              && forall i | 0 <= i < |entries| :: Validate(lib, entries).value[i] ==
                   Advertised(lib.parse(entries[i].version).value, entries[i].usage, entries[i].kparSize,
                              entries[i].kparDigest[7..], entries[i].status)
  {
    ValidateIff(lib, entries);
    IngestAllIff(lib, entries);
    assert forall i | 0 <= i < |entries| :: Ingest(lib, entries[i]).Ok? <==> WellFormed(lib, entries[i]);
    if IngestAll(lib, entries).Ok? {
      var vs := IngestAll(lib, entries).value;
      assert forall i | 0 <= i < |vs| :: vs[i].version == lib.parse(entries[i].version).value;
    }
  }

  /** What a rejection says of the document. */
  ghost predicate RejectionTrue(lib: Codec, entries: seq<VersionEntry>, e: IndexError) {
    match e
    case InvalidSemver(text) => exists i | 0 <= i < |entries| :: entries[i].version == text && lib.parse(text).None?
    case BuildMetadata(text) =>
      exists i | 0 <= i < |entries| ::
        entries[i].version == text && lib.parse(text).Some? && lib.parse(text).value.build != ""
    case InvalidDigest(text, digest) =>
      exists i | 0 <= i < |entries| ::
        entries[i].version == text && entries[i].kparDigest == digest && TryDigest(digest).None?
    case Duplicate(v) =>
      exists i, j | 0 <= i < j < |entries| ::
        lib.parse(entries[i].version) == Some(v) && lib.parse(entries[j].version) == Some(v)
    case OutOfOrder(prev, curr) =>
      && !PrecedenceBelow(curr.core, prev.core)
      && exists i | 0 <= i < |entries| - 1 ::
           lib.parse(entries[i].version) == Some(prev) && lib.parse(entries[i + 1].version) == Some(curr)
    case _ => false
  }

  lemma {:induction false} IngestErrorAt(lib: Codec, entries: seq<VersionEntry>) returns (i: nat)
    requires IngestAll(lib, entries).Err?
    ensures i < |entries| && Ingest(lib, entries[i]) == Err(IngestAll(lib, entries).error)
    ensures forall k | 0 <= k < i :: Ingest(lib, entries[k]).Ok?
  {
    if Ingest(lib, entries[0]).Err? {
      i := 0;
    } else {
      var j := IngestErrorAt(lib, entries[1..]);
      i := j + 1;
      assert forall k | 0 < k < i :: entries[k] == entries[1..][k - 1];
    }
  }

  lemma {:induction false} RepeatAt(vs: seq<Advertised>, i: nat) returns (j: nat, k: nat)
    requires i <= |vs| && FirstRepeat(vs, i).Some?
    ensures j < k < |vs| && vs[j].version == vs[k].version == FirstRepeat(vs, i).value
    decreases |vs| - i
  {
    if exists j | 0 <= j < i :: vs[j].version == vs[i].version {
      k := i;
      j :| 0 <= j < i && vs[j].version == vs[i].version;
    } else {
      j, k := RepeatAt(vs, i + 1);
    }
  }

  lemma {:induction false} RiseAt(vs: seq<Advertised>, i: nat) returns (k: nat)
    requires FirstRise(vs, i).Some?
    ensures k + 1 < |vs| && FirstRise(vs, i).value == (vs[k].version, vs[k + 1].version)
    ensures Compare(vs[k].version.core, vs[k + 1].version.core) != Greater
    decreases |vs| - i
  {
    if Compare(vs[i].version.core, vs[i + 1].version.core) != Greater {
      k := i;
    } else {
      k := RiseAt(vs, i + 1);
    }
  }

  /** A rejected document has the fault it is rejected for. */
  lemma RejectedTruly(lib: Codec, entries: seq<VersionEntry>)
    requires Validate(lib, entries).Err?
    ensures RejectionTrue(lib, entries, Validate(lib, entries).error)
  {
    IngestAllIff(lib, entries);
    if IngestAll(lib, entries).Err? {
      var i := IngestErrorAt(lib, entries);
    } else {
      var vs := IngestAll(lib, entries).value;
      assert forall i | 0 <= i < |vs| :: lib.parse(entries[i].version) == Some(vs[i].version);
      if FirstRepeat(vs, 0).Some? {
        var j, k := RepeatAt(vs, 0);
      } else {
        var k := RiseAt(vs, 0);
        PrecedenceIs(vs[k].version.core, vs[k + 1].version.core);
      }
    }
  }

  /** A release may stand before its pre-releases and not behind them. */
  lemma ReleaseBeforePreRelease(lib: Codec, release: VersionEntry, pre: VersionEntry)
    requires WellFormed(lib, release) && WellFormed(lib, pre)
    requires var r, p := lib.parse(release.version).value.core, lib.parse(pre.version).value.core;
             r.major == p.major && r.minor == p.minor && r.patch == p.patch && r.pre == [] && p.pre != []
    ensures Validate(lib, [release, pre]).Ok?
    ensures Validate(lib, [pre, release]) ==
              Err(OutOfOrder(lib.parse(pre.version).value, lib.parse(release.version).value))
  {
    var r, p := lib.parse(release.version).value, lib.parse(pre.version).value;
    PrecedenceIs(r.core, p.core);
    PrecedenceIs(p.core, r.core);
    assert Compare(r.core, p.core) == Greater && Compare(p.core, r.core) == Less;
    DocumentAcceptedIff(lib, [release, pre]);
    var entries := [pre, release];
    IngestAllIff(lib, entries);
    assert forall i | 0 <= i < 2 :: Ingest(lib, entries[i]).Ok?;
    var vs := IngestAll(lib, entries).value;
    assert Ingest(lib, entries[0]) == Ok(vs[0]) && Ingest(lib, entries[1]) == Ok(vs[1]);
    assert vs[0].version == p && vs[1].version == r;
    NoRepeatIff(vs, 0);
    assert FirstRise(vs, 0) == Some((p, r));
  }

  // ---- what is served ----

  /** The version stream a resolver sees. */
  function Listed(lib: Codec, vs: seq<Advertised>): seq<string> {
    if vs == [] then []
    else (if vs[0].status == Available then [lib.show(vs[0].version)] else []) + Listed(lib, vs[1..])
  }

  function Find(vs: seq<Advertised>, v: Version): Option<Advertised> {
    if vs == [] then None else if vs[0].version == v then Some(vs[0]) else Find(vs[1..], v)
  }

  /** `get_project_async` on what `fetch_versions_json` returned. */
  function GetProject(lib: Codec, fetched: Result<Option<seq<Advertised>>, IndexError>,
      requested: string): Result<Advertised, IndexError>
  {
    match fetched
    case Err(e) => Err(e)
    case Ok(None) => Err(ProjectNotInIndex)
    case Ok(Some(vs)) =>
      match lib.parse(requested)
      case None => Err(VersionNotInIndex(requested))
      case Some(v) =>
        match Find(vs, v)
        case None => Err(VersionNotInIndex(requested))
        case Some(a) => if a.status == Removed then Err(VersionRemoved(a.version)) else Ok(a)
  }

  lemma {:induction false} ListedIff(lib: Codec, vs: seq<Advertised>, s: string)
    ensures s in Listed(lib, vs) <==> exists a | a in vs :: a.status == Available && lib.show(a.version) == s
  {
    if vs != [] {
      ListedIff(lib, vs[1..], s);
      assert vs == [vs[0]] + vs[1..];
    }
  }

  lemma {:induction false} FindUnique(vs: seq<Advertised>, a: Advertised)
    requires a in vs && forall j, k | 0 <= j < k < |vs| :: vs[j].version != vs[k].version
    ensures Find(vs, a.version) == Some(a)
  {
    if vs[0] != a {
      assert a in vs[1..];
      FindUnique(vs[1..], a);
    }
  }

  lemma ListedFound(lib: Codec, vs: seq<Advertised>, s: string)
    requires Descending(vs) && s in Listed(lib, vs) && forall a | a in vs :: ParsesBack(lib, a.version)
    ensures var got := GetProject(lib, Ok(Some(vs)), s);
            got.Ok? && got.value.status == Available && lib.show(got.value.version) == s
  {
    ListedIff(lib, vs, s);
    var a :| a in vs && a.status == Available && lib.show(a.version) == s;
    DescendingHasNoRepeat(vs);
    FindUnique(vs, a);
    assert ParsesBack(lib, a.version);
  }

  /** Whatever was ingested came from parsing. */
  lemma IngestedParsesBack(lib: Codec, entries: seq<VersionEntry>, a: Advertised)
    requires RoundTrips(lib) && IngestAll(lib, entries).Ok? && a in IngestAll(lib, entries).value
    ensures ParsesBack(lib, a.version)
  {
    IngestAllIff(lib, entries);
    var vs := IngestAll(lib, entries).value;
    var i :| 0 <= i < |vs| && vs[i] == a;
    assert Ingest(lib, entries[i]) == Ok(a) && lib.parse(entries[i].version) == Some(a.version);
  }

  /** Every listed version is available, and asking for it returns that very entry. */
  lemma ListedNeverRefused(lib: Codec, entries: seq<VersionEntry>, s: string)
    requires RoundTrips(lib)
    requires Validate(lib, entries).Ok? && s in Listed(lib, Validate(lib, entries).value)
    ensures var got := GetProject(lib, Ok(Some(Validate(lib, entries).value)), s);
            got.Ok? && got.value.status == Available && lib.show(got.value.version) == s
  {
    ValidateIff(lib, entries);
    var vs := Validate(lib, entries).value;
    forall a | a in vs
      ensures ParsesBack(lib, a.version)
    {
      IngestedParsesBack(lib, entries, a);
    }
    ListedFound(lib, vs, s);
  }

  lemma {:induction false} FindNone(vs: seq<Advertised>, v: Version)
    requires forall a | a in vs :: a.version != v
    ensures Find(vs, v) == None
  {
    if vs != [] {
      assert vs[0] in vs && forall a | a in vs[1..] :: a in vs;
      FindNone(vs[1..], v);
    }
  }

  /** What is asked for by any spelling of an advertised version is refused exactly if it was removed. */
  lemma RefusedIffRemoved(lib: Codec, vs: seq<Advertised>, a: Advertised, s: string)
    requires Descending(vs) && a in vs && lib.parse(s) == Some(a.version)
    ensures GetProject(lib, Ok(Some(vs)), s) == if a.status == Removed then Err(VersionRemoved(a.version)) else Ok(a)
  {
    DescendingHasNoRepeat(vs);
    FindUnique(vs, a);
  }

  /** What is not advertised is not in the index. */
  lemma UnadvertisedRefused(lib: Codec, vs: seq<Advertised>, s: string)
    requires forall a | a in vs :: lib.parse(s) != Some(a.version)
    ensures GetProject(lib, Ok(Some(vs)), s) == Err(VersionNotInIndex(s))
  {
    if lib.parse(s).Some? {
      FindNone(vs, lib.parse(s).value);
    }
  }
}
