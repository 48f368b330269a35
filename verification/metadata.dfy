/**
 * Project metadata and its editing: core/src/model.rs, core/src/commands/include.rs and
 * core/src/commands/exclude.rs.
 */
module Metadata {
  import opened Common

  datatype Language = SysML | KerML

  datatype Algorithm = Sha256 | NoAlgorithm

  datatype FileChecksum = FileChecksum(value: string, algorithm: Algorithm)

  /** The symbol index (symbol to file) and the file checksums of `.meta.json`. */
  datatype Meta = Meta(index: map<string, string>, checksum: Option<map<string, FileChecksum>>)

  const EMPTY: Meta := Meta(map[], None)

  /** SHA-256, the top-level symbols of a text in a language, and equality of paths: any functions. */
  datatype Tools = Tools(
    sha256: string -> string,
    topLevel: (Language, string) -> Option<seq<string>>,
    samePath: (string, string) -> bool)

  predicate EqIgnoreCase(a: string, b: string) { Map(LowerChar, a) == Map(LowerChar, b) }

  /** Where the last `.` or `/` of `path` is; `|path|` if there is none. */
  function LastMark(path: string, n: nat): (k: nat)
    requires n <= |path|
    ensures k == |path| || (k < n && (path[k] == '.' || path[k] == '/'))
    ensures forall i | (if k == |path| then 0 else k + 1) <= i < n :: path[i] != '.' && path[i] != '/'
  {
    if n == 0 then |path| else if path[n - 1] == '.' || path[n - 1] == '/' then n - 1 else LastMark(path, n - 1)
  }

  /** What follows the last `.` of the file name, unless the name begins with it. */
  function Extension(path: string): Option<string> {
    var k := LastMark(path, |path|);
    if k == |path| || path[k] == '/' || k == 0 || path[k - 1] == '/' then None else Some(path[k + 1..])
  }

  function GuessFromPath(path: string): Option<Language> {
    match Extension(path)
    case None => None
    case Some(e) => if EqIgnoreCase(e, "sysml") then Some(SysML)
        else if EqIgnoreCase(e, "kerml") then Some(KerML) else None
  }

  /** `extract_symbols`: `None` if the format is unknown or the text does not parse. */
  function ExtractSymbols(t: Tools, force: Option<Language>, path: string, text: string): Option<seq<string>> {
    match if force.Some? then force else GuessFromPath(path)
    case None => None
    case Some(lang) => t.topLevel(lang, text)
  }

  function Checksums(m: Meta): map<string, FileChecksum> {
    if m.checksum.Some? then m.checksum.value else map[]
  }

  /** `source_paths`, with or without the files named by the index. */
  function SourcePaths(m: Meta, includeIndex: bool): set<string> {
    Checksums(m).Keys + if includeIndex then m.index.Values else {}
  }

  function FileIndexSymbols(m: Meta, path: string): set<string> {
    set s | s in m.index && m.index[s] == path
  }

  /** `add_checksum`, overwriting. */
  function AddChecksum(m: Meta, path: string, c: FileChecksum): Meta {
    m.(checksum := Some(Checksums(m)[path := c]))
  }

  function RemoveChecksum(m: Meta, path: string): Meta {
    if m.checksum.Some? then m.(checksum := Some(m.checksum.value - {path})) else m
  }

  /** What an include drops first: it compares paths, where `remove_index` compares their text. */
  function DropIndex(t: Tools, m: Meta, path: string): Meta {
    m.(index := map s | s in m.index && !t.samePath(m.index[s], path) :: m.index[s])
  }

  function RemoveIndex(m: Meta, path: string): Meta {
    m.(index := map s | s in m.index && m.index[s] != path :: m.index[s])
  }

  function AddSymbols(m: Meta, path: string, symbols: seq<string>): Meta {
    m.(index := m.index + map s | s in symbols :: path)
  }

  // ---- include ----

  datatype Options = Options(computeChecksum: bool, indexSymbols: bool, forceFormat: Option<Language>)

  datatype IncludeError = ReadFailed(path: string) | ExtractFailed(path: string) | StoreFailed

  /** The symbols of `path`, where reading and extracting succeed. */
  function SymbolsOf(t: Tools, o: Options, files: map<string, string>, path: string): Option<seq<string>> {
    if path in files then ExtractSymbols(t, o.forceFormat, path, files[path]) else None
  }

  function ChecksumOf(t: Tools, o: Options, text: string): FileChecksum {
    if o.computeChecksum then FileChecksum(t.sha256(text), Sha256) else FileChecksum("", NoAlgorithm)
  }

  function IncludeOne(t: Tools, o: Options, files: map<string, string>, m: Meta,
      path: string): Result<Meta, IncludeError>
  {
    if path !in files then Err(ReadFailed(path))
    else
      var m1 := AddChecksum(m, path, ChecksumOf(t, o, files[path]));
      if !o.indexSymbols then Ok(m1)
      else
        match ExtractSymbols(t, o.forceFormat, path, files[path])
        case None => Err(ExtractFailed(path))
        case Some(symbols) => Ok(AddSymbols(DropIndex(t, m1, path), path, symbols))
  }

  function IncludeAll(t: Tools, o: Options, files: map<string, string>, m: Meta,
      paths: seq<string>): Result<Meta, IncludeError>
  {
    if paths == [] then Ok(m)
    else
      match IncludeAll(t, o, files, m, paths[..|paths| - 1])
      case Err(e) => Err(e)
      case Ok(m1) => IncludeOne(t, o, files, m1, paths[|paths| - 1])
  }

  // ---- exclude ----

  datatype ExcludeError = SourceNotFound(path: string) | MissingMeta | ExcludeStoreFailed

  datatype Exclusion = Exclusion(removedChecksum: Option<FileChecksum>, removedSymbols: set<string>)

  function ExclusionOf(m: Meta, path: string): Exclusion {
    Exclusion(if path in Checksums(m) then Some(Checksums(m)[path]) else None, FileIndexSymbols(m, path))
  }

  function ExcludeAll(m: Meta, paths: seq<string>): Result<(Meta, seq<Exclusion>), ExcludeError> {
    if paths == [] then Ok((m, []))
    else
      var path := paths[|paths| - 1];
      match ExcludeAll(m, paths[..|paths| - 1])
      case Err(e) => Err(e)
      case Ok((m1, outcomes)) =>
        var x := ExclusionOf(m1, path);
        if x.removedChecksum.None? && x.removedSymbols == {} then Err(SourceNotFound(path))
        else Ok((RemoveIndex(RemoveChecksum(m1, path), path), outcomes + [x]))
  }

  // ---- the commands ----

  class Project {
    var meta: Option<Meta>
    var files: map<string, string>

    constructor (files: map<string, string>)
      ensures this.files == files && meta == None
    {
      this.files, meta := files, None;
    }

    /** `do_include`: edits a copy path by path and stores it at the end, or changes nothing. */
    method DoInclude(t: Tools, o: Options, paths: seq<string>, storeFails: bool) returns (error: Option<IncludeError>)
      modifies this`meta
      ensures var start := if old(meta).Some? then old(meta).value else EMPTY;
              match IncludeAll(t, o, files, start, paths)
              case Err(e) => error == Some(e) && meta == old(meta)
              case Ok(m) => if storeFails then error == Some(StoreFailed) && meta == old(meta)
                  else error == None && meta == Some(m)
      ensures meta == Perform(t, old(meta), Include(o, files, paths, storeFails))
    {
      var m := if meta.Some? then meta.value else EMPTY;
      ghost var start := m;
      for i := 0 to |paths|
        invariant meta == old(meta)
        invariant IncludeAll(t, o, files, start, paths[..i]) == Ok(m)
      {
        assert paths[..i + 1][..i] == paths[..i];
        var r := IncludeFile(t, o, files, m, paths[i]);
        if r.Err? {
          IncludeFails(t, o, files, start, paths, i + 1);
          return Some(r.error);
        }
        m := r.value;
      }
      assert paths[..|paths|] == paths;
      if storeFails {
        return Some(StoreFailed);
      }
      meta := Some(m);
      error := None;
    }

    /** `do_exclude`. */
    method DoExclude(paths: seq<string>, storeFails: bool) returns (r: Result<seq<Exclusion>, ExcludeError>)
      modifies this`meta
      ensures if old(meta).None? then r == Err(MissingMeta) && meta == None
              else match ExcludeAll(old(meta).value, paths)
                   case Err(e) => r == Err(e) && meta == old(meta)
                   case Ok((m, outcomes)) =>
                     if storeFails then r == Err(ExcludeStoreFailed) && meta == old(meta)
                         else r == Ok(outcomes) && meta == Some(m)
      ensures forall t :: meta == Perform(t, old(meta), Exclude(paths, storeFails))
    {
      if meta.None? {
        return Err(MissingMeta);
      }
      var m := meta.value;
      var outcomes: seq<Exclusion> := [];
      for i := 0 to |paths|
        invariant ExcludeAll(meta.value, paths[..i]) == Ok((m, outcomes))
      {
        assert paths[..i + 1][..i] == paths[..i];
        var path := paths[i];
        var x := ExclusionOf(m, path);
        m := RemoveIndex(RemoveChecksum(m, path), path);
        if x.removedChecksum.None? && x.removedSymbols == {} {
          ExcludeFails(meta.value, paths, i + 1);
          return Err(SourceNotFound(path));
        }
        outcomes := outcomes + [x];
      }
      assert paths[..|paths|] == paths;
      if storeFails {
        return Err(ExcludeStoreFailed);
      }
      meta := Some(m);
      r := Ok(outcomes);
    }
  }

  method InsertSymbols(base: Meta, path: string, symbols: seq<string>) returns (m: Meta)
    ensures m == AddSymbols(base, path, symbols)
  {
    var index := base.index;
    for k := 0 to |symbols|
      invariant index == base.index + map s | s in symbols[..k] :: path
    {
      assert symbols[..k + 1] == symbols[..k] + [symbols[k]];
      index := index[symbols[k] := path];
    }
    assert symbols[..|symbols|] == symbols;
    m := base.(index := index);
  }

  /** The body of the include loop for one file. */
  method IncludeFile(t: Tools, o: Options, files: map<string, string>, m: Meta, path: string)
    returns (r: Result<Meta, IncludeError>)
    ensures r == IncludeOne(t, o, files, m, path)
  {
    if path !in files {
      return Err(ReadFailed(path));
    }
    var source := files[path];
    var m1 := if o.computeChecksum then AddChecksum(m, path, FileChecksum(t.sha256(source), Sha256))
              else AddChecksum(m, path, FileChecksum("", NoAlgorithm));
    if o.indexSymbols {
      m1 := DropIndex(t, m1, path);
      var symbols := ExtractSymbols(t, o.forceFormat, path, source);
      if symbols.None? {
        return Err(ExtractFailed(path));
      }
      m1 := InsertSymbols(m1, path, symbols.value);
    }
    r := Ok(m1);
  }

  lemma {:induction false} IncludeFails(t: Tools, o: Options, files: map<string, string>, m: Meta,
      paths: seq<string>, i: nat)
    requires i <= |paths| && IncludeAll(t, o, files, m, paths[..i]).Err?
    ensures IncludeAll(t, o, files, m, paths) == IncludeAll(t, o, files, m, paths[..i])
    decreases |paths|
  {
    if i < |paths| {
      assert paths[..|paths| - 1][..i] == paths[..i];
      IncludeFails(t, o, files, m, paths[..|paths| - 1], i);
    } else {
      assert paths[..i] == paths;
    }
  }

  lemma {:induction false} ExcludeFails(m: Meta, paths: seq<string>, i: nat)
    requires i <= |paths| && ExcludeAll(m, paths[..i]).Err?
    ensures ExcludeAll(m, paths) == ExcludeAll(m, paths[..i])
    decreases |paths|
  {
    if i < |paths| {
      assert paths[..|paths| - 1][..i] == paths[..i];
      ExcludeFails(m, paths[..|paths| - 1], i);
    } else {
      assert paths[..i] == paths;
    }
  }

  // ---- when they fail ----

  /** The file can be read and, where symbols are wanted, they can be extracted. */
  predicate Includable(t: Tools, o: Options, files: map<string, string>, path: string) {
    path in files && (o.indexSymbols ==> ExtractSymbols(t, o.forceFormat, path, files[path]).Some?)
  }

  /** `paths[k]` is the first that is not includable, and `e` says why. */
  ghost predicate IncludeStopsAt(t: Tools, o: Options, files: map<string, string>, paths: seq<string>, k: nat,
      e: IncludeError)
  {
    && k < |paths| && (forall j | 0 <= j < k :: Includable(t, o, files, paths[j])) && !Includable(t, o, files, paths[k])
    && e == if paths[k] in files then ExtractFailed(paths[k]) else ReadFailed(paths[k])
  }

  /** An include goes through exactly if every file is includable; otherwise the first that is not is named. */
  lemma {:induction false} IncludeIs(t: Tools, o: Options, files: map<string, string>, m: Meta, paths: seq<string>)
    ensures IncludeAll(t, o, files, m, paths).Ok? <==> forall p | p in paths :: Includable(t, o, files, p)
    ensures IncludeAll(t, o, files, m, paths).Err? ==>
              exists k: nat :: IncludeStopsAt(t, o, files, paths, k, IncludeAll(t, o, files, m, paths).error)
  {
    if paths != [] {
      var n := |paths| - 1;
      var init := paths[..n];
      IncludeIs(t, o, files, m, init);
      assert forall p :: p in paths <==> p in init || p == paths[n];
      var r := IncludeAll(t, o, files, m, paths);
      if IncludeAll(t, o, files, m, init).Err? {
        var k: nat :| IncludeStopsAt(t, o, files, init, k, r.error);
        assert IncludeStopsAt(t, o, files, paths, k, r.error);
      } else if r.Err? {
        assert forall j | 0 <= j < n :: init[j] in init;
        assert IncludeStopsAt(t, o, files, paths, n, r.error);
      }
    }
  }

  /** `paths[k]` is there, and was not already excluded. */
  predicate Excludable(m: Meta, paths: seq<string>, k: nat)
    requires k < |paths|
  {
    paths[k] in SourcePaths(m, true) && paths[k] !in paths[..k]
  }

  /** What is removed for a path: its checksum, if it has one, and its symbols. */
  predicate Removes(m: Meta, path: string, x: Exclusion) {
    && (if path in Checksums(m) then x.removedChecksum == Some(Checksums(m)[path]) else x.removedChecksum == None)
    && x.removedSymbols == set s | s in m.index && m.index[s] == path
  }

  lemma PresentIff(m: Meta, path: string)
    ensures path in SourcePaths(m, true) <==>
              ExclusionOf(m, path).removedChecksum.Some? || ExclusionOf(m, path).removedSymbols != {}
  {
    if path in m.index.Values {
      var s :| s in m.index && m.index[s] == path;
      assert s in FileIndexSymbols(m, path);
    }
    if FileIndexSymbols(m, path) != {} {
      var s :| s in FileIndexSymbols(m, path);
      assert m.index[s] in m.index.Values;
    }
  }

  /** After excluding `init`, `path` is there exactly if it was and is not among them, with what it had. */
  lemma StillThere(m: Meta, init: seq<string>, path: string)
    requires ExcludeAll(m, init).Ok?
    ensures var m1 := ExcludeAll(m, init).value.0;
            && (path in SourcePaths(m1, true) <==> path in SourcePaths(m, true) && path !in init)
            && (path !in init ==> ExclusionOf(m1, path) == ExclusionOf(m, path))
  {
    ExcludeRemoves(m, init);
    PresentIff(m, path);
    PresentIff(ExcludeAll(m, init).value.0, path);
  }

  /** The first path that is not excludable. */
  ghost predicate ExcludeStopsAt(m: Meta, paths: seq<string>, k: nat, e: ExcludeError) {
    && k < |paths| && (forall j: nat | j < k :: Excludable(m, paths, j)) && !Excludable(m, paths, k)
    && e == SourceNotFound(paths[k])
  }

  lemma ExcludableUpTo(m: Meta, paths: seq<string>, k: nat)
    requires k + 1 < |paths|
    ensures Excludable(m, paths, k) <==> Excludable(m, paths[..|paths| - 1], k)
  {
    assert paths[..|paths| - 1][..k] == paths[..k];
  }

  /**
   * An exclude goes through exactly if every path is among the sources and given once, and says
   * for each what it had; otherwise the first that is not is named.
   */
  lemma {:induction false} ExcludeIs(m: Meta, paths: seq<string>)
    ensures ExcludeAll(m, paths).Ok? <==> forall k: nat | k < |paths| :: Excludable(m, paths, k)
    ensures ExcludeAll(m, paths).Ok? ==>
              var outcomes := ExcludeAll(m, paths).value.1;
              |outcomes| == |paths| && forall k | 0 <= k < |paths| :: Removes(m, paths[k], outcomes[k])
    ensures ExcludeAll(m, paths).Err? ==>
              exists k: nat :: ExcludeStopsAt(m, paths, k, ExcludeAll(m, paths).error)
  {
    if paths != [] {
      var n := |paths| - 1;
      var init, r := paths[..n], ExcludeAll(m, paths);
      ExcludeIs(m, init);
      forall k: nat | k < n
        ensures Excludable(m, paths, k) <==> Excludable(m, init, k)
      {
        ExcludableUpTo(m, paths, k);
      }
      if ExcludeAll(m, init).Err? {
        var k: nat :| ExcludeStopsAt(m, init, k, r.error);
        assert ExcludeStopsAt(m, paths, k, r.error);
      } else {
        StillThere(m, init, paths[n]);
        PresentIff(ExcludeAll(m, init).value.0, paths[n]);
        if r.Err? {
          assert ExcludeStopsAt(m, paths, n, r.error);
        }
      }
    }
  }

  // ---- languages ----

  /** The same but for the case of ASCII letters. */
  predicate SameLetters(a: string, b: string) {
    && |a| == |b|
    && forall i | 0 <= i < |a| ::
         || a[i] == b[i]
         || ('A' <= a[i] <= 'Z' && b[i] as int == a[i] as int + 32)
         || ('A' <= b[i] <= 'Z' && a[i] as int == b[i] as int + 32)
  }

  lemma SameLettersIff(a: string, b: string)
    ensures EqIgnoreCase(a, b) <==> SameLetters(a, b)
  {
    var x, y := Map(LowerChar, a), Map(LowerChar, b);
    if |a| == |b| {
      forall i | 0 <= i < |a|
        ensures x[i] == y[i] <==>
                  || a[i] == b[i]
                  || ('A' <= a[i] <= 'Z' && b[i] as int == a[i] as int + 32)
                  || ('A' <= b[i] <= 'Z' && a[i] as int == b[i] as int + 32)
      {
      }
      assert x == y <==> forall i | 0 <= i < |a| :: x[i] == y[i];
    }
  }

  /** `ext` stands behind the last `.` of the file name, and something stands before it. */
  predicate HasExtension(path: string, stem: string, ext: string) {
    && path == stem + "." + ext && stem != "" && stem[|stem| - 1] != '/'
    && forall i | 0 <= i < |ext| :: ext[i] != '.' && ext[i] != '/'
  }

  lemma LastMarkIs(path: string, k: nat)
    requires k < |path| && (path[k] == '.' || path[k] == '/')
    requires forall i | k < i < |path| :: path[i] != '.' && path[i] != '/'
    ensures LastMark(path, |path|) == k
  {
  }

  lemma ExtensionIff(path: string, ext: string)
    ensures Extension(path) == Some(ext) <==> exists stem :: HasExtension(path, stem, ext)
  {
    var k := LastMark(path, |path|);
    if Extension(path) == Some(ext) {
      assert path == path[..k] + "." + ext;
      assert HasExtension(path, path[..k], ext);
    }
    if stem :| HasExtension(path, stem, ext) {
      assert path[|stem|] == '.' && forall i | |stem| < i < |path| :: path[i] == ext[i - |stem| - 1];
      LastMarkIs(path, |stem|);
      assert path[|stem| + 1..] == ext;
    }
  }

  /** A file is SysML or KerML exactly if its extension says so, in any case. */
  lemma GuessIff(path: string, lang: Language)
    ensures GuessFromPath(path) == Some(lang) <==>
              exists stem, ext ::
                HasExtension(path, stem, ext) && SameLetters(ext, if lang.SysML? then "sysml" else "kerml")
  {
    if Extension(path).Some? {
      var ext := Extension(path).value;
      ExtensionIff(path, ext);
      SameLettersIff(ext, "sysml");
      SameLettersIff(ext, "kerml");
      assert Map(LowerChar, "sysml")[0] == 's' && Map(LowerChar, "kerml")[0] == 'k';
      var stem :| HasExtension(path, stem, ext);
    }
    forall stem, ext | HasExtension(path, stem, ext)
      ensures Extension(path) == Some(ext)
    {
      ExtensionIff(path, ext);
    }
  }

  // ---- every run of includes and excludes ----

  /** Every file the index names has a checksum. */
  ghost predicate IndexedFilesChecksummed(m: Meta) {
    forall s | s in m.index :: m.index[s] in Checksums(m)
  }

  lemma {:induction false} IncludeKeeps(t: Tools, o: Options, files: map<string, string>, m: Meta, paths: seq<string>)
    requires IndexedFilesChecksummed(m) && IncludeAll(t, o, files, m, paths).Ok?
    ensures IndexedFilesChecksummed(IncludeAll(t, o, files, m, paths).value)
  {
    if paths != [] {
      IncludeKeeps(t, o, files, m, paths[..|paths| - 1]);
    }
  }

  lemma {:induction false} ExcludeKeeps(m: Meta, paths: seq<string>)
    requires IndexedFilesChecksummed(m) && ExcludeAll(m, paths).Ok?
    ensures IndexedFilesChecksummed(ExcludeAll(m, paths).value.0)
  {
    if paths != [] {
      ExcludeKeeps(m, paths[..|paths| - 1]);
    }
  }

  /** One command, on the files as they are then; `storeFails` if the metadata cannot be written. */
  datatype Command =
    | Include(o: Options, files: map<string, string>, paths: seq<string>, storeFails: bool)
    | Exclude(paths: seq<string>, storeFails: bool)

  /** What the commands above leave stored. */
  function Perform(t: Tools, stored: Option<Meta>, c: Command): Option<Meta> {
    match c
    case Include(o, files, paths, storeFails) =>
      (match IncludeAll(t, o, files, if stored.Some? then stored.value else EMPTY, paths)
       case Err(_) => stored
       case Ok(m) => if storeFails then stored else Some(m))
    case Exclude(paths, storeFails) =>
      if stored.None? then None
      else
        match ExcludeAll(stored.value, paths)
        case Err(_) => stored
        case Ok(r) => if storeFails then stored else Some(r.0)
  }

  function PerformAll(t: Tools, commands: seq<Command>): Option<Meta> {
    if commands == [] then None else Perform(t, PerformAll(t, commands[..|commands| - 1]), commands[|commands| - 1])
  }

  /** After every run from no metadata, indexed files are among the checksummed ones. */
  lemma {:induction false} RunKeepsIndexChecksummed(t: Tools, commands: seq<Command>)
    ensures PerformAll(t, commands).Some? ==> IndexedFilesChecksummed(PerformAll(t, commands).value)
  {
    if commands != [] {
      var before, c := PerformAll(t, commands[..|commands| - 1]), commands[|commands| - 1];
      RunKeepsIndexChecksummed(t, commands[..|commands| - 1]);
      match c
      case Include(o, files, paths, _) =>
        var start := if before.Some? then before.value else EMPTY;
        if IncludeAll(t, o, files, start, paths).Ok? {
          IncludeKeeps(t, o, files, start, paths);
        }
      case Exclude(paths, _) =>
        if before.Some? && ExcludeAll(before.value, paths).Ok? {
          ExcludeKeeps(before.value, paths);
        }
    }
  }

  /** After an include exactly the given paths are new or updated among the checksums, with what their files hold. */
  lemma {:induction false} IncludeChecksums(t: Tools, o: Options, files: map<string, string>, m: Meta,
      paths: seq<string>, p: string)
    requires IncludeAll(t, o, files, m, paths).Ok?
    ensures var after := Checksums(IncludeAll(t, o, files, m, paths).value);
            if p in paths then
              && p in files && p in after
              && after[p] == if o.computeChecksum then FileChecksum(t.sha256(files[p]), Sha256)
                             else FileChecksum("", NoAlgorithm)
            else (p in after <==> p in Checksums(m)) && (p in after ==> after[p] == Checksums(m)[p])
    ensures !o.indexSymbols ==> IncludeAll(t, o, files, m, paths).value.index == m.index
  {
    if paths != [] {
      var init, last := paths[..|paths| - 1], paths[|paths| - 1];
      assert p in paths <==> p in init || p == last;
      IncludeChecksums(t, o, files, m, init, p);
    }
  }

  // ---- who owns a symbol ----

  function Owner(m: Meta, s: string): Option<string> {
    if s in m.index then Some(m.index[s]) else None
  }

  predicate Has(t: Tools, o: Options, files: map<string, string>, path: string, s: string) {
    SymbolsOf(t, o, files, path).Some? && s in SymbolsOf(t, o, files, path).value
  }

  lemma IncludeOneOwner(t: Tools, o: Options, files: map<string, string>, m: Meta, path: string, s: string)
    requires o.indexSymbols && IncludeOne(t, o, files, m, path).Ok?
    ensures Owner(IncludeOne(t, o, files, m, path).value, s)
         == if Has(t, o, files, path, s) then Some(path)
            else if s in m.index && t.samePath(m.index[s], path) then None
            else Owner(m, s)
  {
  }

  /** None of `paths` has `s` or is the path `q`. */
  predicate Untouched(t: Tools, o: Options, files: map<string, string>, paths: seq<string>, s: string, q: string) {
    forall p | p in paths :: !Has(t, o, files, p, s) && !t.samePath(q, p)
  }

  /** `q` is at `k` and has `s`, and what comes later leaves that alone. */
  predicate BroughtAt(t: Tools, o: Options, files: map<string, string>, paths: seq<string>, s: string, q: string,
      k: nat)
  {
    k < |paths| && paths[k] == q && Has(t, o, files, q, s) && Untouched(t, o, files, paths[k + 1..], s, q)
  }

  ghost predicate Brought(t: Tools, o: Options, files: map<string, string>, paths: seq<string>, s: string, q: string) {
    exists k: nat :: BroughtAt(t, o, files, paths, s, q, k)
  }

  lemma UntouchedUpTo(t: Tools, o: Options, files: map<string, string>, paths: seq<string>, s: string, q: string)
    requires paths != []
    ensures var init, last := paths[..|paths| - 1], paths[|paths| - 1];
            Untouched(t, o, files, paths, s, q) <==>
              Untouched(t, o, files, init, s, q) && Untouched(t, o, files, [last], s, q)
  {
    assert paths == paths[..|paths| - 1] + [paths[|paths| - 1]];
  }

  lemma BroughtAtUpTo(t: Tools, o: Options, files: map<string, string>, paths: seq<string>, s: string, q: string,
      k: nat)
    requires k < |paths|
    ensures var n := |paths| - 1;
            BroughtAt(t, o, files, paths, s, q, k) <==>
              if k == n then q == paths[n] && Has(t, o, files, q, s)
              else BroughtAt(t, o, files, paths[..n], s, q, k) && Untouched(t, o, files, [paths[n]], s, q)
  {
    var n := |paths| - 1;
    var rest := paths[k + 1..];
    if k == n {
      assert rest == [];
    } else {
      assert rest[..|rest| - 1] == paths[..n][k + 1..] && rest[|rest| - 1] == paths[n];
      UntouchedUpTo(t, o, files, rest, s, q);
    }
  }

  lemma BroughtUpTo(t: Tools, o: Options, files: map<string, string>, paths: seq<string>, s: string, q: string)
    requires paths != []
    ensures var init, last := paths[..|paths| - 1], paths[|paths| - 1];
            Brought(t, o, files, paths, s, q) <==>
              || (q == last && Has(t, o, files, last, s))
              || (Brought(t, o, files, init, s, q) && Untouched(t, o, files, [last], s, q))
  {
    var n := |paths| - 1;
    if Brought(t, o, files, paths, s, q) {
      var k: nat :| BroughtAt(t, o, files, paths, s, q, k);
      BroughtAtUpTo(t, o, files, paths, s, q, k);
    }
    BroughtAtUpTo(t, o, files, paths, s, q, n);
    if Brought(t, o, files, paths[..n], s, q) {
      var k: nat :| BroughtAt(t, o, files, paths[..n], s, q, k);
      BroughtAtUpTo(t, o, files, paths, s, q, k);
    }
  }

  /**
   * After an include with indexing a symbol belongs to the last included file that has it, or
   * else to the file it belonged to before, unless that path, however it is spelled, was included.
   */
  lemma {:induction false} IncludeOwner(t: Tools, o: Options, files: map<string, string>, m: Meta,
      paths: seq<string>, s: string, q: string)
    requires o.indexSymbols && IncludeAll(t, o, files, m, paths).Ok?
    ensures Owner(IncludeAll(t, o, files, m, paths).value, s) == Some(q) <==>
              || Brought(t, o, files, paths, s, q)
              || (Owner(m, s) == Some(q) && Untouched(t, o, files, paths, s, q))
  {
    if paths != [] {
      var init, last := paths[..|paths| - 1], paths[|paths| - 1];
      IncludeOwner(t, o, files, m, init, s, q);
      IncludeOneOwner(t, o, files, IncludeAll(t, o, files, m, init).value, last, s);
      BroughtUpTo(t, o, files, paths, s, q);
      UntouchedUpTo(t, o, files, paths, s, q);
    }
  }

  /** The last included file owns exactly its symbols. */
  lemma LastPathOwnsItsSymbols(t: Tools, o: Options, files: map<string, string>, m: Meta, paths: seq<string>)
    requires o.indexSymbols && paths != [] && IncludeAll(t, o, files, m, paths).Ok?
    requires t.samePath(paths[|paths| - 1], paths[|paths| - 1])
    ensures var last := paths[|paths| - 1];
            && SymbolsOf(t, o, files, last).Some?
            && FileIndexSymbols(IncludeAll(t, o, files, m, paths).value, last) ==
                 set s | s in SymbolsOf(t, o, files, last).value
  {
    var last := paths[|paths| - 1];
    var m1 := IncludeAll(t, o, files, m, paths[..|paths| - 1]).value;
    forall s
      ensures s in FileIndexSymbols(IncludeAll(t, o, files, m, paths).value, last) <==> Has(t, o, files, last, s)
    {
      IncludeOneOwner(t, o, files, m1, last, s);
    }
  }

  /** After an exclude none of the paths is left among the sources, and other files are untouched. */
  lemma {:induction false} ExcludeRemoves(m: Meta, paths: seq<string>)
    requires ExcludeAll(m, paths).Ok?
    ensures var m' := ExcludeAll(m, paths).value.0;
            && (forall path | path in paths :: path !in SourcePaths(m', true))
            && (forall path | path !in paths :: ExclusionOf(m', path) == ExclusionOf(m, path))
  {
    if paths != [] {
      var init, last := paths[..|paths| - 1], paths[|paths| - 1];
      ExcludeRemoves(m, init);
      var m1, m' := ExcludeAll(m, init).value.0, ExcludeAll(m, paths).value.0;
      assert m'.index.Keys <= m1.index.Keys && Checksums(m') == Checksums(m1) - {last};
      assert m'.index.Values <= m1.index.Values;
      assert last !in m'.index.Values;
      assert forall path | path in paths :: path == last || path in init;
      forall path | path !in paths
        ensures ExclusionOf(m', path) == ExclusionOf(m1, path)
      {
        assert path != last;
        assert FileIndexSymbols(m', path) == FileIndexSymbols(m1, path);
      }
    }
  }

  /** What excluding `path` leaves of metadata that has it. */
  lemma ExcludeOne(m: Meta, path: string)
    requires path in Checksums(m)
    ensures ExcludeAll(m, [path]).Ok? && ExcludeAll(m, [path]).value.0 == RemoveIndex(RemoveChecksum(m, path), path)
  {
    assert [path][..0] == [];
    assert ExcludeAll(m, [path][..0]) == Ok((m, []));
  }

  lemma IndexRestoredIff(t: Tools, index: map<string, string>, path: string, symbols: seq<string>)
    requires path !in index.Values
    ensures RemoveIndex(AddSymbols(DropIndex(t, Meta(index, None), path), path, symbols), path).index == index <==>
              && (forall s | s in symbols :: s !in index)
              && (forall s | s in index :: !t.samePath(index[s], path))
  {
    assert forall s | s in index :: index[s] in index.Values && index[s] != path;
    var added := AddSymbols(DropIndex(t, Meta(index, None), path), path, symbols);
    if s :| s in symbols && s in index {
      assert added.index[s] == path && s !in RemoveIndex(added, path).index;
    } else if s :| s in index && t.samePath(index[s], path) {
      assert s !in symbols && s !in added.index && s !in RemoveIndex(added, path).index;
    }
  }

  /** None of the symbols of `path` is owned, and no entry is for this path, however it is spelled. */
  predicate TakesNothing(t: Tools, o: Options, files: map<string, string>, m: Meta, path: string) {
    && (forall s | s in m.index :: !Has(t, o, files, path, s))
    && (forall s | s in m.index :: !t.samePath(m.index[s], path))
  }

  /** A file that was not there before. */
  lemma NewFileRestoredIff(t: Tools, o: Options, files: map<string, string>, m: Meta, path: string)
    requires path !in SourcePaths(m, true) && IncludeOne(t, o, files, m, path).Ok?
    ensures var m1 := IncludeOne(t, o, files, m, path).value;
            RemoveIndex(RemoveChecksum(m1, path), path) == m <==>
              m.checksum.Some? && (o.indexSymbols ==> TakesNothing(t, o, files, m, path))
  {
    var m1 := IncludeOne(t, o, files, m, path).value;
    var m2 := RemoveIndex(RemoveChecksum(m1, path), path);
    assert m2.checksum.value == Checksums(m);
    if o.indexSymbols {
      IndexRestoredIff(t, m.index, path, SymbolsOf(t, o, files, path).value);
    } else {
      assert forall s | s in m.index :: m.index[s] in m.index.Values && m.index[s] != path;
      assert m2.index == m.index;
    }
  }

  /**
   * Excluding a file right after including it restores the metadata exactly if the file was not
   * in it, there was a checksum table, which is not taken away again, and, where symbols are
   * indexed, nothing was taken over from another file or another spelling: that is not given back.
   */
  lemma IncludeThenExcludeIff(t: Tools, o: Options, files: map<string, string>, m: Meta, path: string)
    requires IncludeOne(t, o, files, m, path).Ok?
    ensures var m1 := IncludeOne(t, o, files, m, path).value;
            && ExcludeAll(m1, [path]).Ok?
            && (ExcludeAll(m1, [path]).value.0 == m <==>
                  && path !in SourcePaths(m, true)
                  && m.checksum.Some?
                  && (o.indexSymbols ==> TakesNothing(t, o, files, m, path)))
  {
    var m1 := IncludeOne(t, o, files, m, path).value;
    assert path in Checksums(m1);
    ExcludeOne(m1, path);
    if path in SourcePaths(m, true) {
      ExcludeRemoves(m1, [path]);
      assert path in [path];
    } else {
      NewFileRestoredIff(t, o, files, m, path);
    }
  }

  /** Including a first file and excluding it leaves an empty checksum table behind. */
  lemma FirstFileLeavesTable(t: Tools, path: string, text: string)
    ensures var o := Options(true, false, None);
            var m1 := IncludeOne(t, o, map[path := text], EMPTY, path);
            m1.Ok? && ExcludeAll(m1.value, [path]).Ok? &&
                ExcludeAll(m1.value, [path]).value.0 == Meta(map[], Some(map[])) != EMPTY
  {
    var o := Options(true, false, None);
    var m1 := IncludeOne(t, o, map[path := text], EMPTY, path).value;
    ExcludeOne(m1, path);
    assert RemoveIndex(RemoveChecksum(m1, path), path) == Meta(map[], Some(map[]));
  }

  /** A symbol taken over from `b` is lost when `a` is excluded. */
  lemma TakenSymbolIsLost(t: Tools, text: string, s: string)
    requires t.topLevel(SysML, text).Some? && s in t.topLevel(SysML, text).value
    ensures var o := Options(true, true, Some(SysML));
            var m := Meta(map[s := "b"], Some(map["b" := FileChecksum("", NoAlgorithm)]));
            var m1 := IncludeOne(t, o, map["a" := text], m, "a");
            m1.Ok? && ExcludeAll(m1.value, ["a"]).Ok? && s !in ExcludeAll(m1.value, ["a"]).value.0.index
  {
    var o := Options(true, true, Some(SysML));
    var m := Meta(map[s := "b"], Some(map["b" := FileChecksum("", NoAlgorithm)]));
    var m1 := IncludeOne(t, o, map["a" := text], m, "a").value;
    assert m1.index[s] == "a";
    ExcludeOne(m1, "a");
  }
}
