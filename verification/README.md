# Verified models of Sysand

Sysand is a package manager for SysML v2 and KerML projects. This project models its hard
parts in Dafny and proves what they promise: the names under which projects are installed, the
index client with its shared cache, the lockfile and its canonical form, the sync run, building
and publishing archives, editing metadata, package URLs, and the authentication policy.

Code that loops over buffers, strings, sets and maps is modelled by methods with loops, and
objects that are updated in place by classes. Each such method is proved equal to a function
over values, and the theorems are about those functions, for all inputs, runs and reachable
states. `dafny verify dfyconfig.toml` checks everything.

| file | what it models |
|---|---|
| `utf8.dfy`, `decoder.dfy` | UTF-8 and the streaming percent decoder |
| `chars.dfy`, `sanitizer.dfy`, `version_name.dfy`, `filename.dfy`, `filename_text.dfy` | file names for installed projects |
| `purl.dfy`, `index_path.dfy` | package URLs and where an index keeps them |
| `semver.dfy`, `index_versions.dfy`, `index_cache.dfy` | `versions.json`: order, validation, the shared cache |
| `orderings.dfy`, `lockfile.dfy`, `canonical.dfy`, `canonical_contents.dfy`, `canonical_validity.dfy` | lockfiles: comparators, validation, canonical form |
| `index_digest.dfy` | digests of the index in lockfiles |
| `lock_extend.dfy` | building a lockfile from inputs and a solution |
| `sync.dfy`, `sync_outcome.dfy` | bringing an environment in line with a lockfile, and when that succeeds |
| `canonical_targets.dfy`, `canonical_sync.dfy` | what canonicalising changes about that |
| `metadata.dfy`, `archive.dfy` | include, exclude, build, publish checks |
| `auth.dfy` | credential lookup and the request policy |

## Parameters

What lies outside the code is a parameter, and every result holds for all values of it unless
a `requires` says otherwise.

- Full case folding, NFC, the Default_Ignorable table and Punycode are any functions.
- Canonicalising an IRI is any function.
- SHA-256, the symbol hash, symbol extraction, glob matching and equality of paths are any
  functions. `CollisionIsReal` and `ClashMeansRepeat` assume that the hash tells the exports at
  hand apart, `LastPathOwnsItsSymbols` that the last path equals itself.
- Parsing and printing versions is a pair of functions. `ListedNeverRefused` and
  `ListedNeverRefusedInRun` assume that a version that came from parsing, once printed, parses
  back to itself.
- The server is any function of the requests so far, the index server any sequence of answers,
  the solver any function; what a solver promises is the predicate `Solves`.
- Storages, provided IRIs and failing reads and installs of a sync run are a record of functions.

## Where the code and its comments disagree

The model follows the code.

- The comment above the sanitiser loop says that whitespace with any surrounding ASCII
  punctuation becomes one `_`. `WhitespaceGapIff` says exactly when it does; `HyphenSpaceKeepsHyphen`
  gives inputs, as they reach the loop after trimming, where it does not. The comment also says
  that whitespace outside ASCII is left as it is; the loop replaces it, and `SanitizeOutput` says
  that none is left.
- `Lock::canonicalize` says that it does not change contents or semantics. It can turn a valid
  lock into an invalid one: `CanonicalValidIff` says of every lock exactly when the assertion at
  its end holds, `CanonicalStaysValidIff` of every valid one. It can change what a sync run
  installs, where, and with which checksum: `TargetsKeptIff` and `SameEnvironmentIff` say exactly
  when it does not, and `TargetCanMove` and `EditableStopsInstall` give locks where it does.
  It is not idempotent either: `CanonicalTwiceIff` says exactly when it is, and `MixedCaseSwaps`
  gives a lock, with a valid canonical form, where it is not.
- An IRI that the index client routes to the hash bucket need not go there again once it is
  printed: `OtherRoundTripIff`.
- Excluding what was just included need not restore the metadata. `IncludeThenExcludeIff` says
  exactly when it does; `FirstFileLeavesTable` and `TakenSymbolIsLost` give inputs where it does not.
- The `no_supported` branch of the sync run is never taken, because `supported` is always true.

## Model

| member | source | states |
|---|---|---|
| `Utf8.MinimalIffEncoding` | core/src/iri_normalize.rs:358-367 | the byte table that decides whether buffered bytes are a character accepts exactly the encodings of characters |
| `Utf8.IncompleteIffProperPrefix` | core/src/iri_normalize.rs:364-367 | bytes for which the decoder waits are exactly the non-empty proper prefixes of well-formed sequences |
| `Utf8.DecodeThenEncode` | core/src/iri_normalize.rs:359-361 | a well-formed sequence is the encoding of the character it decodes to |
| `Utf8.LossyText` | core/src/iri_normalize.rs:341-345 | the whole-input decode undoes encoding and leaves what follows alone |
| `Utf8.LossyBroken` | core/src/iri_normalize.rs:341-345 | a started sequence that the next byte cannot continue is dropped whole, and only it |
| `Utf8.FromUtf8OneMore` | core/src/iri_normalize.rs:358-370 | the standard library's verdict on an unfinished sequence and one more byte is complete, unfinished or malformed as the table says |
| `Decoder.LiteralRun` | core/src/iri_normalize.rs:351-355 | forgetting a pending sequence at a literal run agrees with decoding everything at once |
| `Decoder.AbsorbKeepsMeaning` | core/src/iri_normalize.rs:356-387 | what one byte adds and leaves pending, restart included, keeps the whole-input decode of everything still to come |
| `Decoder.PushByte` | core/src/iri_normalize.rs:356-387 | the 4-byte buffer is never indexed out of range and holds at most 3 bytes between calls |
| `Decoder.ExtendDecodeStripInvalid` | core/src/iri_normalize.rs:345-390 | for every sequence of chunks the streaming decoder appends exactly the whole-input decode that drops every maximal ill-formed subpart |
| `Sanitizer.SanitizeLoop` | core/src/iri_normalize.rs:260-310 | the loop with its look-behind and look-ahead computes the function the next rows are about |
| `Sanitizer.SanitizeOutput` | core/src/iri_normalize.rs:260-310 | no whitespace, bidi control or U+FFFD; only `-`, `.`, `_` as ASCII punctuation; not longer; every other character kept, in order; separators meet only before `.` or as `_-` |
| `Sanitizer.SanitizeSplits` | core/src/iri_normalize.rs:260-310 | a kept character splits the work: what is written between two of them depends on that gap alone |
| `Sanitizer.GapIs` | core/src/iri_normalize.rs:249-309 | the exact replacement of every gap between copied characters: ASCII punctuation, whitespace of any kind, bidi controls and U+FFFD |
| `Sanitizer.WhitespaceGapIff` | core/src/iri_normalize.rs:249-277 | a gap becomes a single `_` if and only if it is one, or its last character outside ASCII is whitespace, or the first character other than `/` and `:` after that is |
| `Sanitizer.HyphenSpaceKeepsHyphen` | core/src/iri_normalize.rs:236-251 | for all copied characters around it, `- ` survives trimming and becomes `-`, where the comment promises `_` |
| `Sanitizer.RunUnsafeLast` | core/src/iri_normalize.rs:303-309 | at the end of any input, a bidi control or U+FFFD adds `-` unless `-` or `.` is already there |
| `VersionName.NormalizeVersion` | core/src/iri_normalize.rs:394-445 | the loop computes the function the next rows are about |
| `VersionName.VersionOutput` | core/src/iri_normalize.rs:394-445 | whatever folding and NFC return: at most 30 bytes of whole characters, ASCII only alphanumeric, `.` or `-`, never two of these adjacent, no bidi control or U+FFFD, nothing trimmable at the end |
| `VersionName.NormalizedVersionIs` | core/src/iri_normalize.rs:394-445 | trimmed at both ends, folded, composed, replaced, cut to the longest prefix of whole characters within 30 bytes and trimmed at the end, in this order |
| `VersionName.CleanSplits` | core/src/iri_normalize.rs:411-428 | a kept character splits the replacement in two |
| `VersionName.CleanGap` | core/src/iri_normalize.rs:411-428 | a run of replaced characters becomes one mark, which its first character decides |
| `VersionName.CleanFixed` | core/src/iri_normalize.rs:411-428 | text that already has the output's form is unchanged, so replacing twice is replacing once |
| `Filename.IriToFilenamePart` | core/src/iri_normalize.rs:168-333 | the loops over host, path and query compute the name part the next rows are about |
| `Filename.FilenamePartFits` | core/src/iri_normalize.rs:168-333 | at most 120 bytes for every IRI, package URLs included, and it ends in nothing that is trimmed |
| `Chars.ClassesAre` | core/src/iri_normalize.rs:236-250 | what is trimmed and replaced, by code point: White_Space, Bidi_Control, controls and ignorable characters |
| `FilenameText.RawTextIs` | core/src/iri_normalize.rs:186-232 | the text before trimming is the host's labels joined by `.`, each decoded where it is Punycode that decodes, `-`, the decoded path less a final `.kpar`, and `-` with the decoded query |
| `FilenameText.FilenamePartIs` | core/src/iri_normalize.rs:168-333 | that text trimmed, sanitised, folded, composed, cut to 120 bytes and trimmed; before folding it keeps the copied characters of host, path and query in this order |
| `FilenameText.PurlPartIs` | core/src/iri_normalize.rs:168-185 | a package URL gives publisher, `-` and name |
| `FilenameText.SomeSpelling` | core/src/iri_normalize.rs:186-232 | every IRI has such a host, path and query text |
| `Filename.IriVersionFilename.constructor` | core/src/iri_normalize.rs:458-471 | a generator that has produced no name yet, for this IRI and version |
| `Filename.IriVersionFilename.NextCandidate` | core/src/iri_normalize.rs:476-486 | cutting back to the recorded byte index and appending gives the next name of the series |
| `FilenameText.CandidateIs` | core/src/iri_normalize.rs:476-486 | the first name is stem, `_` and version; each later one has its number and `_` between them |
| `FilenameText.DecimalIs` | core/src/iri_normalize.rs:476-486 | which is written in decimal without leading zeros |
| `Filename.CandidatesDistinct` | core/src/iri_normalize.rs:476-486 | names with different numbers differ, whatever the IRI and the version |
| `Filename.CandidateShape` | core/src/iri_normalize.rs:448-486 | every name has at most 162 bytes, and the text after its last `_` is the normalised version |
| `Filename.SomeCandidateFree` | core/src/iri_normalize.rs:476-486 | of any N taken names one of the first N + 1 candidates is free |
| `Filename.ComputeProjectPath` | core/src/env/local_directory/mod.rs:231-245 | the loop ends within N + 1 candidates with the first one that is free |
| `Purl.ValidPartIffGrammar` | core/src/purl.rs:61-92 | the window scan accepts exactly the 3 to 50 byte strings of alphanumeric words joined by single allowed separators |
| `Purl.NormalizeFixed` | core/src/purl.rs:108-110 | a valid field is its own normal form; normalising is idempotent |
| `Purl.NormalizeFieldIs` | core/src/purl.rs:108-110 | a space becomes `-`, an upper-case letter its lower-case one, and nothing else changes |
| `Purl.ParseIff` | core/src/purl.rs:156-200 | parsing gives a pair if and only if the text is the prefix, in any case of the scheme, and that valid pair |
| `Purl.PrefixIff` | core/src/purl.rs:156-166 | a text is taken for a Sysand package URL if and only if it starts with `pkg:sysand/`, in any case of the scheme |
| `Purl.ShapeIff` | core/src/purl.rs:156-200 | the shape is refused, with the number of segments, if and only if there are not two |
| `Purl.PairIs` | core/src/purl.rs:156-200 | two segments give their pair, the spelling to use instead, or the field that is invalid, the publisher first |
| `Purl.PrintThenParse` | core/src/purl.rs:156-200 | printing a valid pair and parsing it returns the pair |
| `Purl.SuggestionParses` | core/src/purl.rs:178-184 | the spelling suggested for a text that is not normalised parses, to the suggested pair |
| `Purl.ExpansionReachable` | core/src/commands/add.rs:29-46 | the `unreachable!` arm is never taken, and exactly `publisher/name` of a valid pair expands, to its package URL |
| `Purl.ShorthandIff` | core/src/commands/add.rs:29-46 | a resource is expanded or refused if and only if it has no `:` and exactly one `/` |
| `IndexPath.PathsInjective` | core/src/index/iri.rs:64-74 | two identifiers share a path if and only if they are the same, or both are in the hash bucket and their digests collide |
| `IndexPath.SysandPathIs` | core/src/index/iri.rs:32-83 | a package URL of a valid pair is kept under what follows its prefix, `publisher/name` |
| `IndexPath.OtherPathIs` | core/src/index/iri.rs:32-83 | any other IRI that can be canonicalised under `_iri/` and the digest of its canonical form |
| `IndexPath.UnroutedIff` | core/src/index/iri.rs:32-83 | and nothing else is routed; which of the two errors says why |
| `IndexPath.SysandRoundTrip` | core/src/index/iri.rs:32-83 | printing a Sysand identifier and parsing it returns it, however its scheme was spelled |
| `IndexPath.OtherRoundTripIff` | core/src/index/iri.rs:32-83 | any other identifier survives printing and parsing if and only if its canonical form is canonical and lacks the package URL prefix |
| `IndexPath.EscapedPrefixMovesBucket` | core/src/index/iri.rs:32-83 | for every valid pair, an escaped spelling of its prefix goes to the hash bucket and its canonical form to the publisher's directory |
| `SemVer.PrecedenceOrder` | core/src/env/index.rs:483-491 | precedence is a total order on versions without build metadata |
| `SemVer.PrecedenceIs` | core/src/env/index.rs:481-491 | it is the order of section 11 of SemVer 2.0.0, clause by clause: major, minor, patch; a release above its pre-releases; identifiers by number, text and kind; the longer list above its prefix |
| `IndexVersions.DigestIff` | core/src/env/index.rs:160-174 | a digest is accepted if and only if it is the prefix and 64 lower-case hex digits, which are returned |
| `IndexVersions.ValidateVersions` | core/src/env/index.rs:427-493 | entry checks, duplicate search and neighbour check, with the error each reports first |
| `IndexVersions.CheckOrder` | core/src/env/index.rs:472-491 | the loops report the first repeated version or the first pair of neighbours out of order |
| `IndexVersions.ValidateIff` | core/src/env/index.rs:427-493 | a document is accepted if and only if all entries are well formed and all pairs, not only neighbours, strictly descend |
| `IndexVersions.DocumentAcceptedIff` | core/src/env/index.rs:427-493 | the same in terms of the document: versions parse without build metadata, digests are proper, versions descend; and each entry comes out field by field |
| `IndexVersions.RejectedTruly` | core/src/env/index.rs:427-493 | what a rejection says is true of the document |
| `IndexVersions.ReleaseBeforePreRelease` | core/src/env/index.rs:481-491 | for every release and pre-release of it: listed in that order the document is accepted, in the other rejected as out of order |
| `IndexDigest.DigestTakenIff` | core/src/env/index.rs:160-174 | the index client takes a digest if and only if a lockfile may hold it behind the prefix |
| `IndexDigest.AdvertisedFits` | core/src/lock.rs:330-347 | every digest an accepted document advertises passes the lockfile's check |
| `IndexVersions.ListedIff` | core/src/env/index.rs:539-556 | the resolver sees exactly the available versions |
| `IndexVersions.ListedNeverRefused` | core/src/env/index.rs:517-612 | every version listed from a validated document is then found, available, under the same spelling |
| `IndexVersions.RefusedIffRemoved` | core/src/env/index.rs:562-612 | an advertised version is refused if and only if it was removed; a yanked one is given as advertised |
| `IndexVersions.UnadvertisedRefused` | core/src/env/index.rs:562-612 | a version that is not advertised or does not parse is refused as not in the index |
| `IndexCache.CacheNeverChanges` | core/src/env/index.rs:383-411 | in every interleaving with any answers, a cached list is a validated one and never changes |
| `IndexCache.CallersAgree` | core/src/env/index.rs:383-411 | all callers that ever get a list for an IRI get the same one |
| `IndexCache.OnlyListsPopulate` | core/src/env/index.rs:383-411 | an IRI is cached if and only if some caller was given a list for it: no 404 and no error fills a slot |
| `IndexCache.CallerOutcome` | core/src/env/index.rs:383-411 | in every run, by its events: a caller ends without a project if and only if it was answered 404, with an error if and only if its fetch failed or validation rejected its document with that error, and otherwise with the cached list |
| `IndexCache.VacantInsert` | core/src/env/index.rs:402-409 | the first validated list for an IRI is cached and given to its caller |
| `IndexCache.LateCallerGetsList` | core/src/env/index.rs:387-390 | a caller that begins after that can only get the cached list |
| `IndexCache.ListedNeverRefusedInRun` | core/src/env/mod.rs:182-198 | in every run, a version listed to one caller is given as available to every later one, whatever the server does meanwhile |
| `Lockfile.SourceOrder` | core/src/lock.rs:494-541 | the derived comparison of sources is a total order |
| `Lockfile.ProjectOrder` | core/src/lock.rs:422-432 | the comparison of projects is consistent, though different projects may tie |
| `CanonicalContents.ProjectBelowIff` | core/src/lock.rs:422-432 | projects are ordered by name, then exports, identifiers and version, the first difference deciding |
| `CanonicalContents.SourceBelowIff` | core/src/lock.rs:494-541 | sources are ordered by kind, then by path or URL, size and digest |
| `Lockfile.CheckNameCollision` | core/src/lock.rs:232-252 | succeeds if and only if first identifiers and exports all differ; the symbol, identifier or missing identifier in an error occurs at two places |
| `Lockfile.ValidateUsages` | core/src/lock.rs:254-282 | succeeds if and only if every usage is some project's identifier; the error names one that is not |
| `Lockfile.ValidateSources` | core/src/lock.rs:284-351 | succeeds if and only if every source can be located and has a proper digest; the error names one that does not |
| `Lockfile.Validate` | core/src/lock.rs:200-206 | all four checks; the error is that of the first that fails, and what it says of the lock is true |
| `Canonical.Document.SortCollections` | core/src/lock.rs:368-376 | the collections inside each project, then the projects |
| `Canonical.Document.CanonicalizeChecksums` | core/src/lock.rs:378-392 | the loop puts the digests in lower case; `ContentsKept` says that nothing else changes |
| `Canonical.Document.CanonicalizeInPlace` | core/src/lock.rs:360-366 | the lock's new value is the canonical form the next rows are about |
| `CanonicalContents.ContentsKept` | core/src/lock.rs:355-392 | for every lock: the same version and, in some order, the same projects, each with the same publisher, name and version and the same exports, identifiers, usages and sources in some order, digests in lower case |
| `CanonicalContents.CanonicalAscends` | core/src/lock.rs:368-376 | projects ascend by name, exports, identifiers and version, and so do the exports, identifiers and usages of each |
| `CanonicalContents.SourcesAscend` | core/src/lock.rs:368-392 | the sources of each are its sources in ascending order, then in lower case |
| `Canonical.CanonicalFormUnique` | core/src/lock.rs:360-392 | if the result has no collisions, every reordering of projects, exports, identifiers, usages and sources gives the identical lock |
| `Canonical.FirstsDifferNoTies` | core/src/lock.rs:422-432 | different first identifiers are what rules out comparator ties |
| `Canonical.CanonicalTwiceIff` | core/src/lock.rs:360-392 | applying it twice equals once if and only if lower-casing keeps the order of every project's sources |
| `Canonical.LowerCaseKeepsOrder` | core/src/lock.rs:378-392 | which lower-case digests guarantee |
| `Canonical.MixedCaseSwaps` | core/src/lock.rs:360-392 | for every lock of one project with nothing but two sources whose digests differ in their first digit, `B` and `a`: its canonical form is valid and canonicalising changes it |
| `CanonicalValidity.CanonicalStaysValidIff` | core/src/lock.rs:360-366 | the canonical form of a valid lock is valid if and only if the projects' least identifiers differ |
| `CanonicalValidity.CanonicalValidIff` | core/src/lock.rs:360-366 | for every lock: its canonical form is valid if and only if the version is current, least identifiers and exports differ, usages are satisfied and sources fit once lower-cased |
| `CanonicalValidity.ValidityCanBeLost` | core/src/lock.rs:355-366 | a valid lock whose canonical form is not |
| `LockExtend.RecordExports` | core/src/commands/lock.rs:315-342 | records each export under its hash, or finds a clash with a project number in range and an export there with that hash |
| `LockExtend.IndexOld` | core/src/commands/lock.rs:242-265 | the old projects' exports and first identifiers are indexed, or one of them is reported with a real clash of hashes |
| `LockExtend.AddDependency` | core/src/commands/lock.rs:267-347 | one dependency is appended unless an old project leads with its IRI; each kind of failure and only where it applies |
| `LockExtend.DoLockExtend` | core/src/commands/lock.rs:228-350 | whatever the hash: old projects stay as a prefix, new ones are exactly the unknown dependencies, all exports differ; a failure is the true error of the first dependency that cannot be read, or a clash of hashes |
| `LockExtend.LockedIs` | core/src/commands/lock.rs:267-347 | a dependency is locked with its publisher, name, version, exports and usages, its IRI as only identifier and its sources, or none if it is provided |
| `LockExtend.ExtendIs` | core/src/commands/lock.rs:267-347 | each unknown dependency is locked behind the old projects, at the place of its number among the unknown ones |
| `LockExtend.ReadsIff` | core/src/commands/lock.rs:267-313 | a dependency can be locked if and only if no reading error is true of it |
| `LockExtend.CollisionIsReal` | core/src/commands/lock.rs:315-342 | with a hash that tells the exports apart, a reported symbol is exported at two places |
| `LockExtend.ClashMeansRepeat` | core/src/commands/lock.rs:228-350 | and the complete list has a repeat, so extending fails only where it must |
| `LockExtend.ExtendedLockFits` | core/src/commands/lock.rs:143-213 | distinct first identifiers and a solution closed under usages give an extended lock with distinct first identifiers and every usage satisfied |
| `LockExtend.DoLockProjects` | core/src/commands/lock.rs:131-216 | a lock from inputs with distinct first identifiers and a sound solution passes the version, collision and usage checks and begins with the inputs in order |
| `LockExtend.InputIs` | core/src/commands/lock.rs:150-200 | an input is locked with its fields, its identifiers if it has any, and its sources |
| `LockExtend.InputReadsIff` | core/src/commands/lock.rs:150-200 | and it can be if and only if no reading error is true of it |
| `LockExtend.RequestsAre` | core/src/commands/lock.rs:143-213 | the solver is asked for the inputs' usages, one input's after the other's |
| `Sync.CheckProvided` | core/src/commands/sync.rs:149-177 | the first provided identifier decides, by the project's version |
| `Sync.FirstProvidedIs` | core/src/commands/sync.rs:149-177 | a project is not provided if and only if none of its identifiers is; otherwise its first provided identifier decides, by version |
| `Sync.CheckInstalled` | core/src/commands/sync.rs:185-198 | found, absent or unreadable, by the first identifier and source that decide |
| `Sync.InstallSources` | core/src/commands/sync.rs:200-358 | the environment after the writes up to the first failing or editable source, with the error the rows on outcomes describe |
| `Sync.DoSync` | core/src/commands/sync.rs:94-365 | the labelled loop leaves the error and exactly the writes of the run the next rows are about |
| `SyncOutcome.TurnIs` | core/src/commands/sync.rs:145-360 | a project's turn has no error if and only if it is provided at its version, or it has sources, can be looked up and is found or has only sources that can be installed up to the first editable one; otherwise the error is the true one of the first obstacle |
| `SyncOutcome.TurnWrites` | core/src/commands/sync.rs:200-358 | it writes nothing, or one entry for each tried source in turn, up to the one that fails |
| `SyncOutcome.InstallOneIs` | core/src/commands/sync.rs:200-407 | a source is installed if and only if the project has an identifier, the storage holds it, git or with the listed checksum, and installing does not fail; which error it is otherwise |
| `SyncOutcome.ScanIff` | core/src/commands/sync.rs:185-198 | found if and only if some identifier has a listed checksum before the first that cannot be read, and unreadable the other way round |
| `SyncOutcome.ListsIff` | core/src/lock.rs:650-677 | which checksum, of which kind, each kind of source lists |
| `SyncOutcome.RunSucceedsIff` | core/src/commands/sync.rs:145-360 | a run succeeds if and only if every project's turn does, in the environment the turns before leave |
| `SyncOutcome.RunFailsWith` | core/src/commands/sync.rs:145-360 | otherwise its error is the true one of the first project whose turn does not |
| `SyncOutcome.RunSucceedsApartIff` | core/src/commands/sync.rs:145-360 | where no project leads with another's identifier: if and only if every turn would in the environment the run starts from |
| `Sync.WritesLegitimate` | core/src/commands/sync.rs:367-407 | in every run, failed ones included, each write is at a project's first identifier and version with a checksum both listed and actual, or none for git |
| `Sync.ApplyElsewhere` | core/src/commands/sync.rs:202-350 | entries that are not written stay, and a written one has the last value written there |
| `Sync.SyncInstallsEverything` | core/src/commands/sync.rs:145-360 | after success, where no project leads with another's identifier and none ends in git, every project neither provided nor led by an editable source verifies as a match |
| `Sync.SettledRunWritesNothing` | core/src/commands/sync.rs:145-360 | a run on such an environment writes nothing, whatever the storages hold by then |
| `Sync.SecondSyncWritesNothing` | core/src/commands/sync.rs:145-360 | a second run after a successful one on such a lock writes nothing |
| `Sync.WrittenAgainIff` | core/src/commands/sync.rs:321-346 | a project that was just installed is installed again by its next turn if and only if the last of its sources to be installed is git |
| `Sync.SecondSyncWritesGit` | core/src/commands/sync.rs:145-360 | after success on a lock where no project leads with another's identifier, a second run succeeds and writes exactly what the first wrote for the projects that end in git |
| `CanonicalTargets.WritesAtTarget` | core/src/commands/sync.rs:145-360 | in every environment, whatever a run writes for a project is at its target, and only projects with a target are written |
| `CanonicalTargets.TargetsKeptIff` | core/src/lock.rs:355-376 | for any provided IRIs: the entries a lock and its canonical form are installed at agree if and only if every project that is installed leads with its least identifier and has no editable source |
| `CanonicalSync.RunLands` | core/src/commands/sync.rs:145-360 | a successful run, on a lock where no project leads with another's identifier, from any environment without entries for its projects leaves exactly one entry for each project that is installed, at its first identifier with the checksum of its last source |
| `CanonicalSync.SameEnvironmentIff` | core/src/lock.rs:355-392 | successful runs from scratch on a lock and on its canonical form, in neither of which a project leads with another's identifier, leave the same environment if and only if every installed project leads with its least identifier, has no editable source and ends in a source with the checksum of its greatest one in lower case |
| `CanonicalSync.TargetCanMove` | core/src/lock.rs:355-376 | a valid lock that stays valid, which a run installs at `b` before and at `a` after |
| `CanonicalSync.EditableStopsInstall` | core/src/commands/sync.rs:205-209 | every project with an editable source behind others is installed, and its canonical form is not |
| `Metadata.Project.DoInclude` | core/src/commands/include.rs:47-92 | path by path on a copy that is stored at the end; a failed call leaves the stored metadata as it was |
| `Metadata.Project.DoExclude` | core/src/commands/exclude.rs:33-65 | the same for exclusion, with what was removed for each path |
| `Metadata.RunKeepsIndexChecksummed` | core/src/model.rs:670-751 | after every run of includes and excludes from no metadata, indexed files are among the checksummed ones |
| `Metadata.IncludeChecksums` | core/src/commands/include.rs:47-92 | after an include exactly the given paths have new checksums, of what their files hold; all others are as before |
| `Metadata.IncludeIs` | core/src/commands/include.rs:47-92 | an include fails if and only if some file cannot be read or, where symbols are indexed, parsed; the error names the first such file |
| `Metadata.IncludeOwner` | core/src/commands/include.rs:47-92 | after an include a symbol belongs to a file if and only if that is the last included one that has it, or had it before and was not included, under any spelling |
| `Metadata.LastPathOwnsItsSymbols` | core/src/commands/include.rs:47-92 | the last included file owns exactly its extracted symbols |
| `Metadata.ExcludeRemoves` | core/src/commands/exclude.rs:33-65 | no excluded path is left among the sources, and what is recorded for other files is untouched |
| `Metadata.ExcludeIs` | core/src/commands/exclude.rs:33-65 | an exclude fails if and only if some path is not among the sources or was given before, and names the first; what it returns for each path is what was recorded |
| `Metadata.IncludeThenExcludeIff` | core/src/model.rs:670-721 | excluding a file right after including it restores the metadata if and only if the file was not in it, there was a checksum table and, where symbols are indexed, nothing was taken over from another file or another spelling of its path |
| `Metadata.FirstFileLeavesTable` | core/src/model.rs:670-708 | including and excluding a first file leaves an empty checksum table where there was none |
| `Metadata.TakenSymbolIsLost` | core/src/model.rs:710-721 | for every text with a symbol: if the included file took it over from another, it is gone after excluding it |
| `Archives.BuildKpar` | core/src/commands/build.rs:346-465 | building fails if and only if `Buildable` does not hold; the error is true, and sources come before other texts; what an archive holds otherwise, in any order of the sources |
| `Archives.BuildableIff` | core/src/commands/build.rs:346-465 | it succeeds if and only if no source is missing, unreadable, cannot be parsed or has a stale kept index, and no readme, changelog or license text is there and cannot be read |
| `Archives.BuiltHolds` | core/src/commands/build.rs:346-465 | exactly the sources, the two metadata files and the readme, changelog and `LICENSES/*.txt` that are there are in the archive, unchanged |
| `Archives.OtherNamesAreNoSources` | core/src/commands/build.rs:423-465 | readme, changelog, license and metadata entries never collide with a source |
| `Archives.CheckArchive` | core/src/commands/publish.rs:977-1173 | the publish checks pass if and only if compression, licenses, checksums, symbols and the set of files are all as required; each error is true of the file it names |
| `Archives.PublishableIff` | core/src/commands/publish.rs:977-1173 | they pass if and only if nothing that any of the twelve errors says is true of the archive |
| `Archives.GuessFromExt` | core/src/symbols/mod.rs:28-43 | the language the builder guesses is the one publish expects of that extension |
| `Metadata.GuessIff` | core/src/symbols/mod.rs:28-43 | a language is guessed if and only if the file name has its extension, in any case, behind a non-empty stem |
| `Metadata.SameLettersIff` | core/src/symbols/mod.rs:28-43 | ASCII case is all that is ignored |
| `Archives.BuiltIsPublishableIff` | core/src/commands/publish.rs:1021-1173 | every built archive, index updated or kept, passes if and only if it was deflated, has a source, all sources have the metamodel's extension and all license texts were there |
| `Auth.MatchingIff` | core/src/auth.rs:242-262 | exactly the matching patterns are listed, in ascending order |
| `Auth.LookupUrl` | core/src/auth.rs:242-262 | one forward pass of the value iterator yields exactly the matching pairs in order and never steps back |
| `Auth.SequenceRequest` | core/src/auth.rs:141-175 | the credential is sent only in response to 4xx |
| `Auth.TryInOrder` | core/src/auth.rs:336-369 | the loop over several matches sends the requests and returns the reply the next rows are about |
| `Auth.RequestWithAuthentication` | core/src/auth.rs:304-372 | the same for a URL, with no, one or several matches |
| `Auth.PolicyRequests` | core/src/auth.rs:304-372 | for any server: at most 2k requests for k matches, each only after 4xx to all before it, credentials in order and each right after its own unauthenticated try |
| `Auth.PolicyReplyIs` | core/src/auth.rs:336-369 | the reply is the one that was not 4xx, or else the first round's after every round was tried |

## Left out

- The dependency solver: only what it promises is stated, as `Solves`.
- HTTP transport, redirects, trusted publishing, git, zip and JSON encoding and the file system: an archive's metadata is read back as it was written.
- IRI parsing and normalisation, Punycode, case folding, NFC, SPDX expressions, TOML: parameters, as listed above.
- Symbol extraction: a function of language and text.
- Metadata fields other than the symbol index and the checksums, and metadata is edited as a value that the project object stores.
- `parse_relative_unix_path`, the metamodel version check, publisher, usage and standard library checks of publishing: easy checks of single values.
- `do_add`, `do_remove`, configuration, workspaces, the CLI and the language bindings.
- ExtendDecodeStripInvalid: literal chunks are non-empty, as the IRI library yields them.
- IriToFilenamePart: takes the IRI apart as the IRI library does, with non-empty literal chunks; does not model that library.
- NextCandidate: does not model what happens when the 32-bit counter overflows; it requires that it does not.
- ComputeProjectPath: the taken names are a set; reading them from the environment's metadata is not modelled.
- CanonicalFormUnique: paths are lists of components, as the path type compares them, so the identical lock may spell a path differently.
- ProjectOrder: states consistency only, because projects that differ in usages or sources do tie.
- DoSync: one run sees one environment and storages that answer the same for the same source; `do_env_install_project` is an overwriting write.
- DoLockProjects: does not model the labels in error messages, nor the index into an empty list of identifiers while one is made.
- ListedNeverRefusedInRun: endpoint discovery and URL construction are failures a server may answer with, and are not modelled further.
- ValidateSources: locating a source, by path or URL, is a parameter.
- CheckArchive: the checks of the project information that come before the files are not modelled, nor those of entry paths, symbolic links, encryption, executable bits and directory entries; reading `.project.json` and `.meta.json` has succeeded.
- GuessIff: paths that end in `/` or `/.`, which the path library trims first, have no extension in the model; no source has such a path.
- RequestWithAuthentication: a request is the credential it carries, and cloning and renewing requests is not modelled.
