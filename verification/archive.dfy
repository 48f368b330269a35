/**
 * The archive builder (core/src/commands/build.rs) and the checks that publishing makes on an
 * archive (core/src/commands/publish.rs).
 */
module Archives {
  import opened Common
  import opened Metadata

  datatype Compression = Stored | Deflated | OtherMethod

  datatype Entry = Entry(content: string, compression: Compression)

  /** Archive entries by name, and what `.meta.json` says. */
  datatype Archive = Archive(files: map<string, Entry>, meta: Meta)

  /** A project on disk: readable files, those that are there and cannot be read, and the licenses it names. */
  datatype Source = Source(files: map<string, string>, broken: set<string>, stems: set<string>, info: string)

  datatype BuildError =
    | ReadError(path: string)
    | NoSymbols(path: string)
    | MissingIndexSymbol(path: string)
    | ExtraUnreadable(path: string)

  function LicensePath(stem: string): string { "LICENSES/" + stem + ".txt" }

  function Ext(kind: Language): string { match kind case SysML => ".sysml" case KerML => ".kerml" }

  predicate EndsWith(s: string, suffix: string) { |suffix| <= |s| && s[|s| - |suffix|..] == suffix }

  // ---- building ----

  /** The symbols the builder finds in a file. */
  function Symbols(t: Tools, files: map<string, string>, p: string): Option<seq<string>> {
    if p in files then ExtractSymbols(t, None, p, files[p]) else None
  }

  function SourceChecksum(t: Tools, text: string): FileChecksum { FileChecksum(t.sha256(text), Sha256) }

  /** Readme, changelog and license texts. */
  function WantedNames(src: Source): set<string> {
    {"README.md", "CHANGELOG.md"} + set stem | stem in src.stems :: LicensePath(stem)
  }

  /** Those that are present. */
  function ExtraNames(src: Source): set<string> { WantedNames(src) * src.files.Keys }

  /** Entry names, the sources apart. */
  function OtherNames(src: Source): set<string> { ExtraNames(src) + {".project.json", ".meta.json"} }

  /** The index names what the files export. */
  ghost predicate IndexFits(t: Tools, files: map<string, string>, paths: set<string>, index: map<string, string>) {
    && (forall s | s in index :: index[s] in paths && Symbols(t, files, index[s]).Some? &&
          s in Symbols(t, files, index[s]).value)
    && (forall p, s | p in paths && Symbols(t, files, p).Some? && s in Symbols(t, files, p).value :: s in index)
  }

  /** What a built archive is, for the order of the sources does not matter. */
  ghost predicate BuiltFrom(t: Tools, src: Source, meta: Meta, compression: Compression, updateIndex: bool,
      a: Archive)
  {
    var paths := SourcePaths(meta, true);
    && (forall p | p in paths :: Symbols(t, src.files, p).Some?)
    && paths <= src.files.Keys
    && a.meta.checksum == Some(SourceChecksums(t, src.files, paths))
    && (if updateIndex then IndexFits(t, src.files, paths, a.meta.index)
        else a.meta.index == meta.index &&
             forall s | s in meta.index :: s in Symbols(t, src.files, meta.index[s]).value)
    && a.files.Keys == paths + OtherNames(src)
    && (forall f | f in a.files :: a.files[f].compression == compression)
    && (forall p | p in paths :: a.files[p].content == src.files[p])
    && (forall f | f in ExtraNames(src) :: a.files[f].content == src.files[f])
    && a.files[".project.json"].content == src.info
  }

  /** A `.` and no other mark. */
  predicate IsExt(ext: string) {
    ext != "" && ext[0] == '.' && forall i | 0 < i < |ext| :: ext[i] != '.' && ext[i] != '/'
  }

  lemma SuffixMark(path: string, ext: string)
    requires |ext| > 0 && EndsWith(path, ext) && IsExt(ext)
    ensures LastMark(path, |path|) == |path| - |ext|
    ensures Extension(path).Some? ==> Extension(path) == Some(ext[1..])
  {
    var k := |path| - |ext|;
    assert path[k..] == ext;
    assert path[k] == ext[0];
    assert forall i | k < i < |path| :: path[i] == ext[i - k];
    assert path[k + 1..] == ext[1..];
  }

  lemma ExtensionIs(path: string, ext: string)
    requires |ext| > 0 && EndsWith(path, ext) && IsExt(ext)
    ensures Extension(path) == None || Extension(path) == Some(ext[1..])
  {
    SuffixMark(path, ext);
  }

  lemma ForeignExtension(path: string, ext: string)
    requires |ext| > 1 && EndsWith(path, ext) && IsExt(ext)
    requires LowerChar(ext[1]) != 's' && LowerChar(ext[1]) != 'k'
    ensures GuessFromPath(path) == None
  {
    ExtensionIs(path, ext);
    assert Map(LowerChar, ext[1..])[0] == LowerChar(ext[1]);
    assert Map(LowerChar, "sysml")[0] == 's' && Map(LowerChar, "kerml")[0] == 'k';
  }

  lemma MarkdownIsNoSource(name: string)
    requires name == "README.md" || name == "CHANGELOG.md"
    ensures GuessFromPath(name) == None
  {
    assert name[|name| - 3..] == ".md";
    ForeignExtension(name, ".md");
  }

  lemma JsonIsNoSource(name: string)
    requires name == ".project.json" || name == ".meta.json"
    ensures GuessFromPath(name) == None
  {
    assert name[|name| - 5..] == ".json";
    ForeignExtension(name, ".json");
  }

  lemma LicenseIsNoSource(stem: string)
    ensures GuessFromPath(LicensePath(stem)) == None
  {
    var name := LicensePath(stem);
    assert name[|name| - 4..] == ".txt";
    ForeignExtension(name, ".txt");
  }

  /** No entry beside the sources has a source file's extension. */
  lemma OtherNamesAreNoSources(src: Source, name: string)
    requires name in OtherNames(src)
    ensures GuessFromPath(name) == None
  {
    if name == "README.md" || name == "CHANGELOG.md" {
      MarkdownIsNoSource(name);
    } else if name == ".project.json" || name == ".meta.json" {
      JsonIsNoSource(name);
    } else {
      var stem :| stem in src.stems && name == LicensePath(stem);
      LicenseIsNoSource(stem);
    }
  }

  datatype Draft = Draft(files: map<string, Entry>, index: map<string, string>, checksums: map<string, FileChecksum>)

  /** The index kept for `p` names only symbols its file has. */
  predicate KeptIndexFits(t: Tools, src: Source, meta: Meta, p: string) {
    Symbols(t, src.files, p).Some? && forall s | s in FileIndexSymbols(meta, p) :: s in Symbols(t, src.files, p).value
  }

  /** What lets a source go in. */
  predicate SourceFits(t: Tools, src: Source, meta: Meta, updateIndex: bool, p: string) {
    Symbols(t, src.files, p).Some? && (updateIndex || KeptIndexFits(t, src, meta, p))
  }

  function SourceEntries(files: map<string, string>, compression: Compression, done: set<string>): map<string, Entry>
    requires done <= files.Keys
  {
    map p | p in done :: Entry(files[p], compression)
  }

  function SourceChecksums(t: Tools, files: map<string, string>, done: set<string>): map<string, FileChecksum>
    requires done <= files.Keys
  {
    map p | p in done :: SourceChecksum(t, files[p])
  }

  /** The archive while the sources in `done` are in it. */
  ghost predicate Drafted(t: Tools, src: Source, meta: Meta, compression: Compression, updateIndex: bool,
      done: set<string>, d: Draft)
  {
    && done <= src.files.Keys
    && d.files == SourceEntries(src.files, compression, done)
    && d.checksums == SourceChecksums(t, src.files, done)
    && (forall p | p in done :: SourceFits(t, src, meta, updateIndex, p))
    && (if updateIndex then IndexFits(t, src.files, done, d.index) else d.index == meta.index)
  }

  /** What a build error says of the source `p`. */
  predicate SourceErrorTrue(t: Tools, src: Source, meta: Meta, updateIndex: bool, p: string, e: BuildError) {
    match e
    case ReadError(q) => q == p && p !in src.files
    case NoSymbols(q) => q == p && p in src.files && Symbols(t, src.files, p).None?
    case MissingIndexSymbol(q) =>
      && q == p && !updateIndex && Symbols(t, src.files, p).Some?
      && exists s | s in FileIndexSymbols(meta, p) :: s !in Symbols(t, src.files, p).value
    case ExtraUnreadable(_) => false
  }

  /** What a build error says of the project. */
  predicate BuildErrorTrue(t: Tools, src: Source, meta: Meta, updateIndex: bool, e: BuildError) {
    if e.ExtraUnreadable? then e.path in WantedNames(src) && e.path in src.broken
    else e.path in SourcePaths(meta, true) && SourceErrorTrue(t, src, meta, updateIndex, e.path, e)
  }

  /** Both loops' bodies: one source goes in. */
  method AddSource(t: Tools, src: Source, meta: Meta, compression: Compression, updateIndex: bool,
      ghost done: set<string>, d: Draft, p: string)
    returns (r: Result<Draft, BuildError>)
    requires Drafted(t, src, meta, compression, updateIndex, done, d) && p !in done
    ensures r.Ok? ==> Drafted(t, src, meta, compression, updateIndex, done + {p}, r.value)
    ensures r.Ok? <==> SourceFits(t, src, meta, updateIndex, p)
    ensures r.Err? ==> SourceErrorTrue(t, src, meta, updateIndex, p, r.error)
  {
    if p !in src.files {
      return Err(ReadError(p));
    }
    var text := src.files[p];
    var symbols := ExtractSymbols(t, None, p, text);
    if symbols.None? {
      return Err(NoSymbols(p));
    }
    var files := d.files[p := Entry(text, compression)];
    var checksums := d.checksums[p := SourceChecksum(t, text)];
    var index := d.index;
    if updateIndex {
      var m := InsertSymbols(Meta(d.index, None), p, symbols.value);
      IndexGrows(t, src.files, done, d.index, p, m.index);
      index := m.index;
    } else {
      var recorded := FileIndexSymbols(meta, p);
      var actual := set s | s in symbols.value;
      if recorded - actual != {} {
        var s :| s in recorded - actual;
        return Err(MissingIndexSymbol(p));
      }
      assert forall s | s in recorded :: s !in recorded - actual;
    }
    r := Ok(Draft(files, index, checksums));
    DraftGrows(t, src, meta, compression, updateIndex, done, d, p, r.value);
  }

  lemma DraftGrows(t: Tools, src: Source, meta: Meta, compression: Compression, updateIndex: bool,
      done: set<string>, d: Draft, p: string, d': Draft)
    requires Drafted(t, src, meta, compression, updateIndex, done, d)
    requires SourceFits(t, src, meta, updateIndex, p)
    requires d'.files == d.files[p := Entry(src.files[p], compression)]
    requires d'.checksums == d.checksums[p := SourceChecksum(t, src.files[p])]
    requires if updateIndex then IndexFits(t, src.files, done + {p}, d'.index) else d'.index == d.index
    ensures Drafted(t, src, meta, compression, updateIndex, done + {p}, d')
  {
    SourcesGrow(t, src.files, compression, done, p);
  }

  lemma SourcesGrow(t: Tools, files: map<string, string>, compression: Compression, done: set<string>, p: string)
    requires done <= files.Keys && p in files
    ensures SourceEntries(files, compression, done + {p}) ==
              SourceEntries(files, compression, done)[p := Entry(files[p], compression)]
    ensures SourceChecksums(t, files, done + {p}) == SourceChecksums(t, files, done)[p := SourceChecksum(t, files[p])]
  {
  }

  lemma IndexGrows(t: Tools, files: map<string, string>, done: set<string>, index: map<string, string>,
      p: string, index': map<string, string>)
    requires IndexFits(t, files, done, index) && Symbols(t, files, p).Some?
    requires index' == AddSymbols(Meta(index, None), p, Symbols(t, files, p).value).index
    ensures IndexFits(t, files, done + {p}, index')
  {
  }

  lemma ExtrasApart(src: Source)
    ensures ".project.json" !in ExtraNames(src) && ".meta.json" !in ExtraNames(src)
  {
    assert forall stem :: LicensePath(stem)[0] == 'L';
    assert ".project.json"[0] == '.' && ".meta.json"[0] == '.' && "README.md"[0] == 'R' && "CHANGELOG.md"[0] == 'C';
  }

  method AddExtras(src: Source, compression: Compression, files: map<string, Entry>)
    returns (files': map<string, Entry>)
    requires files.Keys !! OtherNames(src)
    requires forall f | f in files :: files[f].compression == compression
    ensures files'.Keys == files.Keys + OtherNames(src)
    ensures forall f | f in files :: f in files' && files'[f] == files[f]
    ensures forall f | f in files' :: files'[f].compression == compression
    ensures forall f | f in ExtraNames(src) :: files'[f].content == src.files[f]
    ensures files'[".project.json"].content == src.info
  {
    ExtrasApart(src);
    files' := files;
    var rest := ExtraNames(src);
    while rest != {}
      invariant rest <= ExtraNames(src)
      invariant files'.Keys == files.Keys + (ExtraNames(src) - rest)
      invariant forall f | f in files :: f in files' && files'[f] == files[f]
      invariant forall f | f in files' :: files'[f].compression == compression
      invariant forall f | f in ExtraNames(src) - rest :: files'[f].content == src.files[f]
      decreases rest
    {
      var name :| name in rest;
      files' := files'[name := Entry(src.files[name], compression)];
      rest := rest - {name};
    }
    files' := files'[".project.json" := Entry(src.info, compression)];
    files' := files'[".meta.json" := Entry("", compression)];
  }

  /** Every source has symbols, a kept index names only existing ones, and no other text is there but unreadable. */
  predicate Buildable(t: Tools, src: Source, meta: Meta, updateIndex: bool) {
    && (forall p | p in SourcePaths(meta, true) :: SourceFits(t, src, meta, updateIndex, p))
    && WantedNames(src) !! src.broken
  }

  method FindBroken(src: Source) returns (broken: Option<string>)
    ensures broken.None? <==> WantedNames(src) !! src.broken
    ensures broken.Some? ==> broken.value in WantedNames(src) && broken.value in src.broken
  {
    var rest := WantedNames(src);
    while rest != {}
      invariant rest <= WantedNames(src) && (WantedNames(src) - rest) !! src.broken
      decreases rest
    {
      var name :| name in rest;
      if name in src.broken {
        return Some(name);
      }
      rest := rest - {name};
    }
    broken := None;
  }

  lemma SourcesApart(t: Tools, src: Source, paths: set<string>)
    requires forall p | p in paths :: Symbols(t, src.files, p).Some?
    ensures paths !! OtherNames(src)
  {
    if p :| p in paths && p in OtherNames(src) {
      OtherNamesAreNoSources(src, p);
    }
  }

  lemma IndexedAreSources(meta: Meta)
    ensures forall s | s in meta.index :: meta.index[s] in SourcePaths(meta, true)
  {
    forall s | s in meta.index
      ensures meta.index[s] in SourcePaths(meta, true)
    {
      assert meta.index[s] in meta.index.Values;
    }
  }

  /** The builder fails exactly if a text cannot be read, a source cannot be parsed or a kept index is stale. */
  method BuildKpar(t: Tools, src: Source, meta: Meta, compression: Compression, updateIndex: bool)
    returns (r: Result<Archive, BuildError>)
    ensures r.Ok? <==> Buildable(t, src, meta, updateIndex)
    ensures r.Err? ==> BuildErrorTrue(t, src, meta, updateIndex, r.error)
    ensures r.Err? && r.error.ExtraUnreadable? ==>
              forall p | p in SourcePaths(meta, true) :: SourceFits(t, src, meta, updateIndex, p)
    ensures r.Ok? ==> BuiltFrom(t, src, meta, compression, updateIndex, r.value)
  {
    var drafted := AddSources(t, src, meta, compression, updateIndex, SourcePaths(meta, true));
    if drafted.Err? {
      return Err(drafted.error);
    }
    var d := drafted.value;
    var broken := FindBroken(src);
    if broken.Some? {
      return Err(ExtraUnreadable(broken.value));
    }
    SourcesApart(t, src, SourcePaths(meta, true));
    IndexedAreSources(meta);
    var files := AddExtras(src, compression, d.files);
    assert !updateIndex ==> forall s | s in meta.index :: s in FileIndexSymbols(meta, meta.index[s]);
    r := Ok(Archive(files, Meta(d.index, Some(d.checksums))));
  }

  /** A project can be built exactly if nothing that a build error says is true of it. */
  lemma BuildableIff(t: Tools, src: Source, meta: Meta, updateIndex: bool)
    ensures Buildable(t, src, meta, updateIndex) <==> forall e :: !BuildErrorTrue(t, src, meta, updateIndex, e)
  {
    if !Buildable(t, src, meta, updateIndex) {
      if !(WantedNames(src) !! src.broken) {
        var f :| f in WantedNames(src) && f in src.broken;
        assert BuildErrorTrue(t, src, meta, updateIndex, ExtraUnreadable(f));
      } else {
        var p :| p in SourcePaths(meta, true) && !SourceFits(t, src, meta, updateIndex, p);
        var e := if p !in src.files then ReadError(p)
                 else if Symbols(t, src.files, p).None? then NoSymbols(p) else MissingIndexSymbol(p);
        assert BuildErrorTrue(t, src, meta, updateIndex, e);
      }
    }
  }

  lemma DraftStart(t: Tools, src: Source, meta: Meta, compression: Compression, updateIndex: bool)
    ensures Drafted(t, src, meta, compression, updateIndex, {},
                    Draft(map[], if updateIndex then map[] else meta.index, map[]))
  {
  }

  method AddSources(t: Tools, src: Source, meta: Meta, compression: Compression, updateIndex: bool, paths: set<string>)
    returns (r: Result<Draft, BuildError>)
    ensures r.Ok? <==> forall p | p in paths :: SourceFits(t, src, meta, updateIndex, p)
    ensures r.Err? ==> r.error.path in paths && SourceErrorTrue(t, src, meta, updateIndex, r.error.path, r.error)
    ensures r.Ok? ==> Drafted(t, src, meta, compression, updateIndex, paths, r.value)
    ensures r.Ok? ==> r.value.files.Keys == paths
  {
    var d := Draft(map[], if updateIndex then map[] else meta.index, map[]);
    var rest := paths;
    ghost var done: set<string> := {};
    DraftStart(t, src, meta, compression, updateIndex);
    while rest != {}
      invariant done + rest == paths && done !! rest
      invariant Drafted(t, src, meta, compression, updateIndex, done, d)
      decreases rest
    {
      var p :| p in rest;
      var added := AddSource(t, src, meta, compression, updateIndex, done, d, p);
      if added.Err? {
        return Err(added.error);
      }
      d, rest, done := added.value, rest - {p}, done + {p};
    }
    assert done == paths;
    DraftDone(t, src, meta, compression, updateIndex, done, d);
    r := Ok(d);
  }

  lemma DraftDone(t: Tools, src: Source, meta: Meta, compression: Compression, updateIndex: bool,
      done: set<string>, d: Draft)
    requires Drafted(t, src, meta, compression, updateIndex, done, d)
    ensures d.files.Keys == done && forall p | p in done :: SourceFits(t, src, meta, updateIndex, p)
  {
  }

  // ---- checking ----

  datatype PublishError =
    | UnsupportedCompression(path: string)
    | MissingLicenseFile(path: string)
    | MissingChecksum
    | EmptyChecksum
    | MissingChecksumForFile(path: string)
    | IncorrectFileFormat(path: string)
    | UnsupportedFileChecksumType(path: string)
    | IncorrectFileChecksum(path: string)
    | IndexFail(path: string)
    | NonexistentSymbolExported(path: string)
    | MissingFile(path: string)
    | UnexpectedFile(path: string)

  /** One checksummed file passes. */
  predicate FilePasses(t: Tools, a: Archive, kind: Language, p: string, c: FileChecksum) {
    && EndsWith(p, Ext(kind)) && c.algorithm == Sha256 && p in a.files
    && EqIgnoreCase(t.sha256(a.files[p].content), c.value)
    && ExtractSymbols(t, Some(kind), p, a.files[p].content).Some?
    && forall s | s in FileIndexSymbols(a.meta, p) :: s in ExtractSymbols(t, Some(kind), p, a.files[p].content).value
  }

  predicate Expected(a: Archive, stems: set<string>, f: string) {
    || f in Checksums(a.meta) || (exists stem | stem in stems :: f == LicensePath(stem))
    || f == "README.md" || f == "CHANGELOG.md" || f == ".project.json" || f == ".meta.json"
  }

  predicate AllDeflated(a: Archive) { forall f | f in a.files :: a.files[f].compression == Deflated }

  predicate LicensesPresent(a: Archive, stems: set<string>) {
    forall stem | stem in stems :: LicensePath(stem) in a.files
  }

  predicate IndexCovered(meta: Meta) { forall s | s in meta.index :: meta.index[s] in Checksums(meta) }

  predicate FilesPass(t: Tools, a: Archive, kind: Language) {
    forall p | p in Checksums(a.meta) :: FilePasses(t, a, kind, p, Checksums(a.meta)[p])
  }

  predicate AllExpected(a: Archive, stems: set<string>) { forall f | f in a.files :: Expected(a, stems, f) }

  predicate ContentsPass(t: Tools, a: Archive, kind: Language, stems: set<string>) {
    && a.meta.checksum.Some? && a.meta.checksum.value != map[]
    && IndexCovered(a.meta)
    && FilesPass(t, a, kind)
    && AllExpected(a, stems)
  }

  /** All that the file, checksum and symbol checks ask for. */
  predicate Publishable(t: Tools, a: Archive, kind: Language, stems: set<string>) {
    && AllDeflated(a)
    && LicensesPresent(a, stems)
    && ContentsPass(t, a, kind, stems)
  }

  /** What a publish error about one checksummed file says. */
  predicate FileErrorTrue(t: Tools, a: Archive, kind: Language, p: string, c: FileChecksum, e: PublishError) {
    match e
    case IncorrectFileFormat(q) => q == p && !EndsWith(p, Ext(kind))
    case UnsupportedFileChecksumType(q) => q == p && c.algorithm != Sha256
    case MissingFile(q) => q == p && p !in a.files
    case IncorrectFileChecksum(q) => q == p && p in a.files && !EqIgnoreCase(t.sha256(a.files[p].content), c.value)
    case IndexFail(q) => q == p && p in a.files && ExtractSymbols(t, Some(kind), p, a.files[p].content).None?
    case NonexistentSymbolExported(q) =>
      && q == p && p in a.files && ExtractSymbols(t, Some(kind), p, a.files[p].content).Some?
      && exists s | s in FileIndexSymbols(a.meta, p) :: s !in ExtractSymbols(t, Some(kind), p, a.files[p].content).value
    case _ => false
  }

  /** What a publish error about the archive as a whole says. */
  predicate ArchiveErrorTrue(a: Archive, stems: set<string>, e: PublishError) {
    match e
    case UnsupportedCompression(f) => f in a.files && a.files[f].compression != Deflated
    case MissingLicenseFile(f) => f !in a.files && exists stem | stem in stems :: f == LicensePath(stem)
    case MissingChecksum => a.meta.checksum.None?
    case EmptyChecksum => a.meta.checksum == Some(map[])
    case MissingChecksumForFile(f) => f !in Checksums(a.meta) && exists s | s in a.meta.index :: a.meta.index[s] == f
    case UnexpectedFile(f) => f in a.files && !Expected(a, stems, f)
    case _ => false
  }

  /** What a publish error says. */
  predicate PublishErrorTrue(t: Tools, a: Archive, kind: Language, stems: set<string>, e: PublishError) {
    || ArchiveErrorTrue(a, stems, e)
    || exists p | p in Checksums(a.meta) :: FileErrorTrue(t, a, kind, p, Checksums(a.meta)[p], e)
  }

  /** Every entry must be deflated; none is expected yet. */
  method ListFiles(a: Archive) returns (r: Result<map<string, bool>, PublishError>)
    ensures r.Ok? <==> AllDeflated(a)
    ensures r.Err? ==>
              && r.error.UnsupportedCompression? && r.error.path in a.files
              && a.files[r.error.path].compression != Deflated
    ensures r.Ok? ==> r.value == map f | f in a.files :: false
  {
    var marks: map<string, bool> := map[];
    var rest := a.files.Keys;
    while rest != {}
      invariant rest <= a.files.Keys
      invariant marks == map f | f in a.files.Keys - rest :: false
      invariant forall f | f in a.files.Keys - rest :: a.files[f].compression == Deflated
      decreases rest
    {
      var f :| f in rest;
      if a.files[f].compression != Deflated {
        return Err(UnsupportedCompression(f));
      }
      marks := marks[f := false];
      rest := rest - {f};
    }
    r := Ok(marks);
  }

  /** `marks` says which entries are expected so far: those in `expected`. */
  ghost predicate Marks(a: Archive, marks: map<string, bool>, expected: set<string>) {
    marks.Keys == a.files.Keys && forall f | f in marks :: marks[f] <==> f in expected
  }

  lemma MarkOne(a: Archive, marks: map<string, bool>, expected: set<string>, f: string)
    requires Marks(a, marks, expected) && f in a.files
    ensures Marks(a, marks[f := true], expected + {f})
  {
  }

  method MarkLicenses(a: Archive, marks: map<string, bool>, stems: set<string>)
    returns (r: Result<map<string, bool>, PublishError>)
    requires Marks(a, marks, {})
    ensures r.Ok? <==> LicensesPresent(a, stems)
    ensures r.Err? ==>
              && r.error.MissingLicenseFile? && r.error.path !in a.files
              && exists stem | stem in stems :: r.error.path == LicensePath(stem)
    ensures r.Ok? ==> Marks(a, r.value, set stem | stem in stems :: LicensePath(stem))
  {
    var marked := marks;
    var rest := stems;
    while rest != {}
      invariant rest <= stems
      invariant Marks(a, marked, set stem | stem in stems - rest :: LicensePath(stem))
      invariant forall stem | stem in stems - rest :: LicensePath(stem) in a.files
      decreases rest
    {
      var stem :| stem in rest;
      if LicensePath(stem) !in marked {
        return Err(MissingLicenseFile(LicensePath(stem)));
      }
      marked := marked[LicensePath(stem) := true];
      rest := rest - {stem};
    }
    r := Ok(marked);
  }

  /** The index turned around: file to symbols. */
  method GroupSymbols(meta: Meta) returns (r: Result<map<string, set<string>>, PublishError>)
    ensures r.Ok? <==> IndexCovered(meta)
    ensures r.Err? ==>
              && r.error.MissingChecksumForFile? && r.error.path !in Checksums(meta)
              && exists s | s in meta.index :: meta.index[s] == r.error.path
    ensures r.Ok? ==> forall p :: (if p in r.value then r.value[p] else {}) == FileIndexSymbols(meta, p)
  {
    var groups: map<string, set<string>> := map[];
    var rest := meta.index.Keys;
    while rest != {}
      invariant rest <= meta.index.Keys
      invariant forall s | s in meta.index.Keys - rest :: meta.index[s] in Checksums(meta)
      invariant forall p :: (if p in groups then groups[p] else {}) == FileIndexSymbols(meta, p) - rest
      decreases rest
    {
      var s :| s in rest;
      var file := meta.index[s];
      if file !in Checksums(meta) {
        return Err(MissingChecksumForFile(file));
      }
      groups := groups[file := (if file in groups then groups[file] else {}) + {s}];
      rest := rest - {s};
    }
    r := Ok(groups);
  }

  method CheckFile(t: Tools, a: Archive, kind: Language, p: string, c: FileChecksum, symbols: set<string>)
    returns (error: Option<PublishError>)
    requires symbols == FileIndexSymbols(a.meta, p)
    ensures error.None? <==> FilePasses(t, a, kind, p, c)
    ensures error.Some? ==> FileErrorTrue(t, a, kind, p, c, error.value)
  {
    if !EndsWith(p, Ext(kind)) {
      return Some(IncorrectFileFormat(p));
    }
    if c.algorithm != Sha256 {
      return Some(UnsupportedFileChecksumType(p));
    }
    if p !in a.files {
      return Some(MissingFile(p));
    }
    var source := a.files[p].content;
    if !EqIgnoreCase(t.sha256(source), c.value) {
      return Some(IncorrectFileChecksum(p));
    }
    var actual := ExtractSymbols(t, Some(kind), p, source);
    if actual.None? {
      return Some(IndexFail(p));
    }
    if exists s | s in symbols :: s !in actual.value {
      return Some(NonexistentSymbolExported(p));
    }
    error := None;
  }

  /** Every checksummed file is checked and becomes expected. */
  method CheckFiles(t: Tools, a: Archive, kind: Language, marks: map<string, bool>, ghost expected: set<string>,
      groups: map<string, set<string>>)
    returns (r: Result<map<string, bool>, PublishError>)
    requires Marks(a, marks, expected)
    requires forall p :: (if p in groups then groups[p] else {}) == FileIndexSymbols(a.meta, p)
    ensures r.Ok? <==> FilesPass(t, a, kind)
    ensures r.Err? ==> exists p | p in Checksums(a.meta) :: FileErrorTrue(t, a, kind, p, Checksums(a.meta)[p], r.error)
    ensures r.Ok? ==> Marks(a, r.value, expected + Checksums(a.meta).Keys)
  {
    var checksums := Checksums(a.meta);
    var marked := marks;
    var rest := checksums.Keys;
    while rest != {}
      invariant rest <= checksums.Keys
      invariant Marks(a, marked, expected + (checksums.Keys - rest))
      invariant forall p | p in checksums.Keys - rest :: FilePasses(t, a, kind, p, checksums[p])
      decreases rest
    {
      var p :| p in rest;
      var error := CheckFile(t, a, kind, p, checksums[p], if p in groups then groups[p] else {});
      if error.Some? {
        return Err(error.value);
      }
      MarkOne(a, marked, expected + (checksums.Keys - rest), p);
      assert checksums.Keys - (rest - {p}) == checksums.Keys - rest + {p};
      assert expected + (checksums.Keys - rest + {p}) == expected + (checksums.Keys - rest) + {p};
      marked := marked[p := true];
      rest := rest - {p};
    }
    r := Ok(marked);
  }

  method FindUnexpected(marks: map<string, bool>) returns (error: Option<PublishError>)
    ensures error.None? <==> forall f | f in marks && f != ".project.json" && f != ".meta.json" :: marks[f]
    ensures error.Some? ==>
              && error.value.UnexpectedFile? && error.value.path in marks && !marks[error.value.path]
              && error.value.path != ".project.json" && error.value.path != ".meta.json"
  {
    var rest := marks.Keys - {".project.json", ".meta.json"};
    while rest != {}
      invariant rest <= marks.Keys
      invariant forall f | f in marks && f != ".project.json" && f != ".meta.json" && f !in rest :: marks[f]
      invariant ".project.json" !in rest && ".meta.json" !in rest
      decreases rest
    {
      var f :| f in rest;
      if !marks[f] {
        return Some(UnexpectedFile(f));
      }
      rest := rest - {f};
    }
    error := None;
  }

  /** The file, checksum and symbol checks of `prepare_publish_payload`, for an archive whose metadata could be read. */
  method CheckArchive(t: Tools, a: Archive, kind: Language, stems: set<string>) returns (error: Option<PublishError>)
    requires ".project.json" in a.files && ".meta.json" in a.files
    ensures error.None? <==> Publishable(t, a, kind, stems)
    ensures error.Some? ==> PublishErrorTrue(t, a, kind, stems, error.value)
  {
    var listed := ListFiles(a);
    if listed.Err? {
      return Some(listed.error);
    }
    var licensed := MarkLicenses(a, listed.value, stems);
    if licensed.Err? {
      return Some(licensed.error);
    }
    error := CheckContents(t, a, kind, licensed.value, stems);
  }

  /** The same, once the licenses are marked. */
  method CheckContents(t: Tools, a: Archive, kind: Language, marks: map<string, bool>, stems: set<string>)
    returns (error: Option<PublishError>)
    requires Marks(a, marks, set stem | stem in stems :: LicensePath(stem))
    ensures error.None? <==> ContentsPass(t, a, kind, stems)
    ensures error.Some? ==> PublishErrorTrue(t, a, kind, stems, error.value)
  {
    if a.meta.checksum.None? {
      return Some(MissingChecksum);
    }
    if a.meta.checksum.value == map[] {
      return Some(EmptyChecksum);
    }
    var groups := GroupSymbols(a.meta);
    if groups.Err? {
      return Some(groups.error);
    }
    ghost var licenses := set stem | stem in stems :: LicensePath(stem);
    var checked := CheckFiles(t, a, kind, marks, licenses, groups.value);
    if checked.Err? {
      return Some(checked.error);
    }
    error := CheckRemaining(a, checked.value, stems);
  }

  /** What is left over must be the readme, the changelog or the metadata. */
  method CheckRemaining(a: Archive, checked: map<string, bool>, stems: set<string>)
    returns (error: Option<PublishError>)
    requires Marks(a, checked, (set stem | stem in stems :: LicensePath(stem)) + Checksums(a.meta).Keys)
    ensures error.None? <==> AllExpected(a, stems)
    ensures error.Some? ==> ArchiveErrorTrue(a, stems, error.value)
  {
    var marks := checked;
    if "README.md" in marks {
      marks := marks["README.md" := true];
    }
    if "CHANGELOG.md" in marks {
      marks := marks["CHANGELOG.md" := true];
    }
    error := FindUnexpected(marks);
    assert forall f | f in a.files :: Expected(a, stems, f) <==> marks[f] || f == ".project.json" || f == ".meta.json";
  }

  /** The checks pass exactly if nothing that a publish error says is true of the archive. */
  lemma PublishableIff(t: Tools, a: Archive, kind: Language, stems: set<string>)
    ensures Publishable(t, a, kind, stems) <==> forall e :: !PublishErrorTrue(t, a, kind, stems, e)
  {
    if Publishable(t, a, kind, stems) {
      forall e
        ensures !PublishErrorTrue(t, a, kind, stems, e)
      {
        NoArchiveError(a, stems, e);
        NoFileErrors(t, a, kind, e);
      }
    } else {
      var e := FindPublishError(t, a, kind, stems);
    }
  }

  lemma NoFileError(t: Tools, a: Archive, kind: Language, p: string, c: FileChecksum, e: PublishError)
    requires FilePasses(t, a, kind, p, c)
    ensures !FileErrorTrue(t, a, kind, p, c, e)
  {
  }

  lemma NoFileErrors(t: Tools, a: Archive, kind: Language, e: PublishError)
    requires FilesPass(t, a, kind)
    ensures forall p | p in Checksums(a.meta) :: !FileErrorTrue(t, a, kind, p, Checksums(a.meta)[p], e)
  {
    forall p | p in Checksums(a.meta)
      ensures !FileErrorTrue(t, a, kind, p, Checksums(a.meta)[p], e)
    {
      NoFileError(t, a, kind, p, Checksums(a.meta)[p], e);
    }
  }

  lemma NoArchiveError(a: Archive, stems: set<string>, e: PublishError)
    requires AllDeflated(a) && LicensesPresent(a, stems) && IndexCovered(a.meta) && AllExpected(a, stems)
    requires a.meta.checksum.Some? && a.meta.checksum.value != map[]
    ensures !ArchiveErrorTrue(a, stems, e)
  {
  }

  lemma FindFileError(t: Tools, a: Archive, kind: Language, p: string, c: FileChecksum) returns (e: PublishError)
    requires !FilePasses(t, a, kind, p, c)
    ensures FileErrorTrue(t, a, kind, p, c, e)
  {
    e := if !EndsWith(p, Ext(kind)) then IncorrectFileFormat(p)
         else if c.algorithm != Sha256 then UnsupportedFileChecksumType(p)
         else if p !in a.files then MissingFile(p)
         else if !EqIgnoreCase(t.sha256(a.files[p].content), c.value) then IncorrectFileChecksum(p)
         else if ExtractSymbols(t, Some(kind), p, a.files[p].content).None? then IndexFail(p)
         else NonexistentSymbolExported(p);
  }

  lemma FindPublishError(t: Tools, a: Archive, kind: Language, stems: set<string>) returns (e: PublishError)
    requires !Publishable(t, a, kind, stems)
    ensures PublishErrorTrue(t, a, kind, stems, e)
  {
    if !AllDeflated(a) {
      var f :| f in a.files && a.files[f].compression != Deflated;
      e := UnsupportedCompression(f);
    } else if !LicensesPresent(a, stems) {
      var stem :| stem in stems && LicensePath(stem) !in a.files;
      e := MissingLicenseFile(LicensePath(stem));
    } else if a.meta.checksum.None? || a.meta.checksum.value == map[] {
      e := if a.meta.checksum.None? then MissingChecksum else EmptyChecksum;
    } else if !IndexCovered(a.meta) {
      var s :| s in a.meta.index && a.meta.index[s] !in Checksums(a.meta);
      e := MissingChecksumForFile(a.meta.index[s]);
    } else if !FilesPass(t, a, kind) {
      var p :| p in Checksums(a.meta) && !FilePasses(t, a, kind, p, Checksums(a.meta)[p]);
      e := FindFileError(t, a, kind, p, Checksums(a.meta)[p]);
    } else {
      var f :| f in a.files && !Expected(a, stems, f);
      e := UnexpectedFile(f);
    }
  }

  // ---- builder and checker agree ----

  lemma GuessFromExt(p: string, kind: Language)
    requires EndsWith(p, Ext(kind)) && GuessFromPath(p).Some?
    ensures GuessFromPath(p) == Some(kind)
  {
    ExtensionIs(p, Ext(kind));
    assert Ext(kind)[1..] == if kind.SysML? then "sysml" else "kerml";
    assert Map(LowerChar, "sysml")[0] == 's' && Map(LowerChar, "kerml")[0] == 'k';
  }

  /** A file with its own checksum and index entries passes exactly if it has the metamodel's extension. */
  lemma OwnFilePassesIff(t: Tools, a: Archive, kind: Language, p: string)
    requires p in a.files && ExtractSymbols(t, None, p, a.files[p].content).Some?
    requires forall s | s in FileIndexSymbols(a.meta, p) :: s in ExtractSymbols(t, None, p, a.files[p].content).value
    ensures FilePasses(t, a, kind, p, SourceChecksum(t, a.files[p].content)) <==> EndsWith(p, Ext(kind))
  {
    if EndsWith(p, Ext(kind)) {
      GuessFromExt(p, kind);
    }
  }

  /** What the index of a built archive has for a file is in it. */
  lemma BuiltSymbolsOwn(t: Tools, src: Source, meta: Meta, compression: Compression, updateIndex: bool, a: Archive,
      p: string)
    requires BuiltFrom(t, src, meta, compression, updateIndex, a) && p in SourcePaths(meta, true)
    ensures forall s | s in FileIndexSymbols(a.meta, p) :: s in Symbols(t, src.files, p).value
  {
    forall s | s in FileIndexSymbols(a.meta, p)
      ensures s in Symbols(t, src.files, p).value
    {
      assert s in a.meta.index && a.meta.index[s] == p;
    }
  }

  /** A file the builder put in passes exactly if it has the metamodel's extension. */
  lemma BuiltFilePassesIff(t: Tools, src: Source, meta: Meta, compression: Compression, updateIndex: bool,
      a: Archive, kind: Language, p: string)
    requires BuiltFrom(t, src, meta, compression, updateIndex, a) && p in SourcePaths(meta, true)
    ensures FilePasses(t, a, kind, p, Checksums(a.meta)[p]) <==> EndsWith(p, Ext(kind))
  {
    BuiltSymbolsOwn(t, src, meta, compression, updateIndex, a, p);
    OwnFilePassesIff(t, a, kind, p);
  }

  /** The index of a built archive names only its sources. */
  lemma BuiltIndexChecksummed(t: Tools, src: Source, meta: Meta, compression: Compression, updateIndex: bool,
      a: Archive)
    requires BuiltFrom(t, src, meta, compression, updateIndex, a)
    ensures Checksums(a.meta).Keys == SourcePaths(meta, true)
    ensures IndexCovered(a.meta)
  {
    IndexedAreSources(meta);
  }

  /**
   * Every archive the builder produces, with the index updated or kept, passes the checks
   * exactly if it was deflated, has a source, all its sources have the metamodel's extension
   * and all license texts were present.
   */
  lemma BuiltIsPublishableIff(t: Tools, src: Source, meta: Meta, compression: Compression, updateIndex: bool,
      a: Archive, kind: Language)
    requires BuiltFrom(t, src, meta, compression, updateIndex, a)
    ensures Publishable(t, a, kind, src.stems) <==>
              && compression == Deflated
              && SourcePaths(meta, true) != {}
              && (forall p | p in SourcePaths(meta, true) :: EndsWith(p, Ext(kind)))
              && (forall stem | stem in src.stems :: LicensePath(stem) in src.files)
  {
    BuiltIndexChecksummed(t, src, meta, compression, updateIndex, a);
    BuiltFilesExpected(t, src, meta, compression, updateIndex, a);
    BuiltFilesPassIff(t, src, meta, compression, updateIndex, a, kind);
    BuiltLicensesIff(t, src, meta, compression, updateIndex, a);
    assert AllDeflated(a) <==> compression == Deflated by {
      assert ".meta.json" in a.files;
    }
    assert a.meta.checksum.value != map[] <==> SourcePaths(meta, true) != {} by {
      assert a.meta.checksum.value.Keys == SourcePaths(meta, true);
    }
  }

  lemma BuiltFilesPassIff(t: Tools, src: Source, meta: Meta, compression: Compression, updateIndex: bool,
      a: Archive, kind: Language)
    requires BuiltFrom(t, src, meta, compression, updateIndex, a)
    ensures FilesPass(t, a, kind) <==> forall p | p in SourcePaths(meta, true) :: EndsWith(p, Ext(kind))
  {
    BuiltIndexChecksummed(t, src, meta, compression, updateIndex, a);
    forall p | p in SourcePaths(meta, true)
      ensures FilePasses(t, a, kind, p, Checksums(a.meta)[p]) <==> EndsWith(p, Ext(kind))
    {
      BuiltFilePassesIff(t, src, meta, compression, updateIndex, a, kind, p);
    }
  }

  lemma BuiltLicensesIff(t: Tools, src: Source, meta: Meta, compression: Compression, updateIndex: bool, a: Archive)
    requires BuiltFrom(t, src, meta, compression, updateIndex, a)
    ensures LicensesPresent(a, src.stems) <==> forall stem | stem in src.stems :: LicensePath(stem) in src.files
  {
    forall stem | stem in src.stems
      ensures LicensePath(stem) in a.files <==> LicensePath(stem) in src.files
    {
      LicenseIncluded(t, src, meta, compression, updateIndex, a, stem);
    }
  }

  lemma LicenseIncluded(t: Tools, src: Source, meta: Meta, compression: Compression, updateIndex: bool,
      a: Archive, stem: string)
    requires BuiltFrom(t, src, meta, compression, updateIndex, a) && stem in src.stems
    ensures LicensePath(stem) in a.files <==> LicensePath(stem) in src.files
  {
    var path := LicensePath(stem);
    assert path[|path| - 4..] == ".txt";
    if path in SourcePaths(meta, true) {
      assert Symbols(t, src.files, path).Some?;
    }
    assert path[0] == 'L';
  }

  lemma NamesExpected(src: Source, a: Archive, paths: set<string>)
    requires Checksums(a.meta).Keys == paths && a.files.Keys == paths + OtherNames(src)
    ensures AllExpected(a, src.stems)
  {
    forall f | f in a.files
      ensures Expected(a, src.stems, f)
    {
      assert f in paths || f in OtherNames(src);
    }
  }

  lemma BuiltFilesExpected(t: Tools, src: Source, meta: Meta, compression: Compression, updateIndex: bool, a: Archive)
    requires BuiltFrom(t, src, meta, compression, updateIndex, a)
    ensures AllExpected(a, src.stems)
  {
    NamesExpected(src, a, SourcePaths(meta, true));
  }

  lemma OtherNamesAre(src: Source, f: string)
    ensures f in OtherNames(src) <==>
              || f == ".project.json" || f == ".meta.json"
              || (f in src.files && (f == "README.md" || f == "CHANGELOG.md" ||
                                     exists stem | stem in src.stems :: f == "LICENSES/" + stem + ".txt"))
  {
    if stem :| stem in src.stems && f == "LICENSES/" + stem + ".txt" {
      assert f == LicensePath(stem);
    }
  }

  /** Exactly these files are in a built archive, and they hold what the project's files do. */
  lemma BuiltHolds(t: Tools, src: Source, meta: Meta, compression: Compression, updateIndex: bool, a: Archive,
      f: string)
    requires BuiltFrom(t, src, meta, compression, updateIndex, a)
    ensures f in a.files <==>
              || f in SourcePaths(meta, true) || f == ".project.json" || f == ".meta.json"
              || (f in src.files && (f == "README.md" || f == "CHANGELOG.md" ||
                                     exists stem | stem in src.stems :: f == "LICENSES/" + stem + ".txt"))
    ensures f in a.files && f != ".project.json" && f != ".meta.json" ==>
              f in src.files && a.files[f].content == src.files[f]
  {
    OtherNamesAre(src, f);
    assert f in a.files <==> f in SourcePaths(meta, true) || f in OtherNames(src);
    assert f in OtherNames(src) <==> f in ExtraNames(src) || f == ".project.json" || f == ".meta.json";
  }
}
