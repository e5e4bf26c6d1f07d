# Archive-aware content hashing (ZipHasher)

This project models the archive fingerprinting logic of the build tool's
change detection, `ZipHasher`. For up-to-date checks, the build tool hashes an
archive file (zip, jar, war, ear, apk) by its entries rather than its raw
bytes. (In the surrounding tool the entry fingerprints are sorted before they
are hashed, so that the order of entries does not matter; that sort is outside
this model, which neither states nor proves it.) The hasher works in three
steps:

- **Recognising archives.** A name is an archive name when it has one of the
  five known extensions, compared case-insensitively.
- **Walking entries.** The hasher reads the archive's entry stream in order.
  It skips directories and entries the resource filter ignores; the filter is
  asked with the path segments of the entry's name. It descends into nested
  archives and splices their fingerprints into the parent's list. Every other
  entry yields one fingerprint (name, `RegularFile`, hash) when the resource
  hasher returns a non-null hash.
- **Combining.** No fingerprint at all gives a null hash. Otherwise the
  fingerprints are hashed in sorted order. If an exception is thrown on the way,
  including reading a malformed archive nested deep inside, the hasher falls
  back to the file's whole-content hash.

The archive is an abstract entry tree (`ZipTypes.Archive`, `ZipTypes.Entry`).
An archive is its entries in stream order plus how the stream ends: cleanly,
or by throwing after those entries. For each entry, `nested` says what opening
its content as an archive gives; `None` means that throws. The collaborators
are arrow-typed fields the model calls but does not look into:

- `ResourceHasher.hash` returns `Result<Option<HashCode>>`, so it may return
  null or throw.
- `ResourceFilter.shouldBeIgnored` takes path segments.
- `Platform` holds `FileUtils.hasExtensionIgnoresCase`,
  `FilePathUtil.getPathSegments`, and the sorted append together with the
  final digest. An exception is the `Failed` case of `Wrappers.Result`. It
  carries no payload, because only the fact of failure decides the result.

Modules:

- `Wrappers` holds `Option` and `Result`.
- `ZipTypes` is the data model.
- `ZipSpec` holds the walk and the hash as recursive functions, plus the
  properties as lemmas. It also gives a second, independent description of
  the walk: flatten the tree to its kept plain entries, then hash those.
- `ZipHashing` holds the operations as the source runs them. The entry walk is
  a `while` loop over the stream that accumulates into a sequence and calls
  itself for nested archives. `RelativePathFactory` is a class whose entry
  the walk resets for each entry. `Hasher` is a class that accumulates what
  is put into it. `IsZipFile`, `FingerprintZipEntries`, `FingerprintZipFile`,
  `HashZipContents` and `Hash` are each proved to compute the corresponding
  `ZipSpec` function. `AppendConfigurationToHasher` and the class methods are
  specified by the new state they leave.

The surrounding system's task-dependency inference engine is not part of this
model. None of its source is available, so there is nothing to check a model
of it against.

## Model

| member | source | states |
|---|---|---|
| `ZipSpec.MatchesAnyExtensionIff` | subprojects/core/src/main/java/org/gradle/api/internal/changedetection/state/ZipHasher.java:47-53 | trying extensions one by one with an early return is true exactly when some extension of the list matches the name |
| `ZipSpec.ExtensionOrderIrrelevant` | subprojects/core/src/main/java/org/gradle/api/internal/changedetection/state/ZipHasher.java:44-54 | any two extension lists with the same members give the same answer, so the iteration order of the constant set does not matter |
| `ZipSpec.IsZipNameIff` | subprojects/core/src/main/java/org/gradle/api/internal/changedetection/state/ZipHasher.java:44-54 | a name is an archive name exactly when it has extension zip, jar, war, ear or apk under the case-insensitive extension test |
| `ZipHashing.IsZipFile` | subprojects/core/src/main/java/org/gradle/api/internal/changedetection/state/ZipHasher.java:47-54 | the early-return loop answers true exactly when one of the five known extensions matches, and agrees with `ZipSpec.IsZipName` |
| `ZipSpec.EntryFingerprints` | subprojects/core/src/main/java/org/gradle/api/internal/changedetection/state/ZipHasher.java:108-119 | every fingerprint one entry contributes, directly or from a nested archive, has type RegularFile |
| `ZipSpec.EntriesFingerprints` | subprojects/core/src/main/java/org/gradle/api/internal/changedetection/state/ZipHasher.java:103-122 | every fingerprint of a run of entries has type RegularFile |
| `ZipSpec.ArchiveFingerprints` | subprojects/core/src/main/java/org/gradle/api/internal/changedetection/state/ZipHasher.java:102-123 | every fingerprint of a whole archive has type RegularFile |
| `ZipSpec.KeptPlainInEntry` | subprojects/core/src/main/java/org/gradle/api/internal/changedetection/state/ZipHasher.java:109-115 | every entry handed to the resource hasher under an entry is a non-directory, non-ignored, non-archive entry |
| `ZipSpec.KeptPlainInEntries` | subprojects/core/src/main/java/org/gradle/api/internal/changedetection/state/ZipHasher.java:107-115 | the same for a run of entries |
| `ZipSpec.KeptPlainInArchive` | subprojects/core/src/main/java/org/gradle/api/internal/changedetection/state/ZipHasher.java:107-115 | the same for a whole archive, across all nesting levels |
| `ZipSpec.HashedEntries` | subprojects/core/src/main/java/org/gradle/api/internal/changedetection/state/ZipHasher.java:115-118 | keeps exactly the entries whose resource hash is non-null, and only entries of the input |
| `ZipSpec.EntriesAppend` | subprojects/core/src/main/java/org/gradle/api/internal/changedetection/state/ZipHasher.java:103-122 | walking a concatenation of entries is the concatenation of the two walks, and a failure in either part fails the whole |
| `ZipSpec.FailedPrefixFailsAll` | subprojects/core/src/main/java/org/gradle/api/internal/changedetection/state/ZipHasher.java:107-120 | once an exception is thrown while the walk reads a prefix, the walk of the whole stream fails |
| `ZipSpec.SplitAt` | subprojects/core/src/main/java/org/gradle/api/internal/changedetection/state/ZipHasher.java:103-122 | a successful walk is the walk before entry i, then entry i's contribution, then the walk after it, in that order |
| `ZipSpec.NestedArchiveSpliced` | subprojects/core/src/main/java/org/gradle/api/internal/changedetection/state/ZipHasher.java:112-113 | a kept archive entry contributes exactly the flattened fingerprints of its nested archive, at its own position, and no fingerprint of its own |
| `ZipSpec.PlainEntrySpliced` | subprojects/core/src/main/java/org/gradle/api/internal/changedetection/state/ZipHasher.java:114-118 | a kept plain entry contributes, at its position, one fingerprint with its name, RegularFile and its hash when the hash is non-null, and nothing when it is null |
| `ZipSpec.SkippedEntryContributesNothing` | subprojects/core/src/main/java/org/gradle/api/internal/changedetection/state/ZipHasher.java:108-111 | a directory or an ignored entry contributes nothing, whatever its nested content; an ignored archive entry is not opened |
| `ZipSpec.EntryIsFlattenThenHash` | subprojects/core/src/main/java/org/gradle/api/internal/changedetection/state/ZipHasher.java:109-119 | a successful walk of one entry equals hashing the kept plain entries under it, in order |
| `ZipSpec.EntriesIsFlattenThenHash` | subprojects/core/src/main/java/org/gradle/api/internal/changedetection/state/ZipHasher.java:103-122 | the same for a run of entries |
| `ZipSpec.ArchiveIsFlattenThenHash` | subprojects/core/src/main/java/org/gradle/api/internal/changedetection/state/ZipHasher.java:102-123 | the same for a whole archive |
| `ZipSpec.FingerprintsOfArchive` | subprojects/core/src/main/java/org/gradle/api/internal/changedetection/state/ZipHasher.java:102-123 | a successful walk yields one fingerprint per kept plain entry with a non-null hash, counted across all nesting levels, in entry order; the i-th carries that entry's name, RegularFile and hash; no directory, ignored entry or archive entry has one |
| `ZipSpec.EntriesFailIff` | subprojects/core/src/main/java/org/gradle/api/internal/changedetection/state/ZipHasher.java:107-120 | a run of entries fails exactly when one of its entries fails |
| `ZipSpec.ArchiveFailsIff` | subprojects/core/src/main/java/org/gradle/api/internal/changedetection/state/ZipHasher.java:102-123 | an archive walk fails exactly when the stream throws after its entries or one of its entries fails |
| `ZipSpec.DeepFailure` | subprojects/core/src/main/java/org/gradle/api/internal/changedetection/state/ZipHasher.java:112-113 | a failing entry met at any nesting depth fails the walk of the outermost archive |
| `ZipSpec.EntryDeepFailure` | subprojects/core/src/main/java/org/gradle/api/internal/changedetection/state/ZipHasher.java:112-113 | a failing entry met under an entry fails that entry's walk |
| `ZipSpec.ZipHashNullIff` | subprojects/core/src/main/java/org/gradle/api/internal/changedetection/state/ZipHasher.java:80-83 | the hash is null exactly when the walk succeeds with no fingerprint |
| `ZipSpec.ZipHashOfFingerprints` | subprojects/core/src/main/java/org/gradle/api/internal/changedetection/state/ZipHasher.java:84-86 | a successful non-empty walk gives the sorted-append hash of the fingerprints |
| `ZipSpec.FailureFallsBack` | subprojects/core/src/main/java/org/gradle/api/internal/changedetection/state/ZipHasher.java:87-89 | any failure gives the file's whole-content hash |
| `ZipSpec.DeepFailureFallsBack` | subprojects/core/src/main/java/org/gradle/api/internal/changedetection/state/ZipHasher.java:78-90 | a failing entry anywhere in the opened file, such as a malformed nested archive, makes the hash the whole-content hash |
| `ZipHashing.FingerprintZipEntries` | subprojects/core/src/main/java/org/gradle/api/internal/changedetection/state/ZipHasher.java:102-123 | the loop over the entry stream, with its recursion into nested archives, returns exactly the walk `ZipSpec.ArchiveFingerprints` |
| `ZipHashing.FingerprintZipFile` | subprojects/core/src/main/java/org/gradle/api/internal/changedetection/state/ZipHasher.java:92-100 | opening the file and walking it returns `ZipSpec.FileFingerprints`, which fails when the file cannot be opened |
| `ZipHashing.HashZipContents` | subprojects/core/src/main/java/org/gradle/api/internal/changedetection/state/ZipHasher.java:77-90 | returns `ZipSpec.ZipHash`; null exactly when the walk succeeds with no fingerprint |
| `ZipHashing.Hash` | subprojects/core/src/main/java/org/gradle/api/internal/changedetection/state/ZipHasher.java:64-68 | returns `ZipSpec.ZipHash` |
| `ZipSpec.Ignored` | subprojects/core/src/main/java/org/gradle/api/internal/changedetection/state/ZipHasher.java:108-109 | an entry is ignored exactly when the resource filter answers yes for the path segments of the entry's name |
| `ZipHashing.RelativePathFactory.Create` | subprojects/core/src/main/java/org/gradle/api/internal/changedetection/state/ZipHasher.java:129-133 | the path segments of the current entry's name |
| `ZipHashing.HashMalformedZip` | subprojects/core/src/main/java/org/gradle/api/internal/changedetection/state/ZipHasher.java:140-143 | the snapshot's whole-content hash |
| `ZipHashing.AppendConfigurationToHasher` | subprojects/core/src/main/java/org/gradle/api/internal/changedetection/state/ZipHasher.java:70-75 | puts the class name, then the resource hasher's configuration, then the resource filter's, after what the hasher already held |
| `ZipHashing.RelativePathFactory.constructor` | subprojects/core/src/main/java/org/gradle/api/internal/changedetection/state/ZipHasher.java:125-127 | a fresh factory points at no entry |
| `ZipHashing.RelativePathFactory.SetZipEntry` | subprojects/core/src/main/java/org/gradle/api/internal/changedetection/state/ZipHasher.java:135-137 | the factory now points at the given entry, so its path segments are that entry's |

## Left out

- ZIP decoding is not modelled. This covers `ZipInput.create`, `getNextEntry` and `getInputStream`. The archive is an entry tree given as data, whose reads may fail: an archive's stream may throw after its listed entries, and an entry's content may fail to open as an archive.
- Closing streams (`IoActions.closeQuietly`) is I/O and is left out.
- The hash algorithm is left out: `Hashing.newHasher`, `Hasher.hash` and `HashCode`.
- The sorting inside `NormalizedPathFingerprintCompareStrategy.appendSortedToHasher` is left out. The model hands the fingerprints, in walk order, to one `Platform.appendSortedToHasher` function. That function stands for the sort, the append and the digest together.
- `ResourceHasher`, `ResourceFilter`, `FilePathUtil.getPathSegments` and `FileUtils.hasExtensionIgnoresCase` are foreign code. They are modelled as functions whose insides are not visible.
- The resource filter, the path-segment split and the extension test are total functions here. A runtime exception thrown by one of them, which the source's `catch (Exception e)` would also turn into the fallback, is not modelled. Only the resource hasher and the archive reads can fail.
- `RelativePathFactory.create` is lazy: the filter may never call it. The model computes the segments before asking the filter. Both are pure here, so the answer is the same.
- Collaborators' `appendConfigurationToHasher` calls are modelled as each collaborator putting its `configuration` strings into the hasher. What they actually put in is not visible.
- `java.lang.Error`s are not modelled. The source catches only `Exception`, so an `Error` such as a `StackOverflowError` from very deeply nested archives would leave `hash` without any result; the model's walk always ends with a result or `Failed`.
- AppendConfigurationToHasher: puts the fixed name `ZipHasherClassName`. The source puts `getClass().getName()`, and the class is not final, so a subclass would put its own name; subclasses are not modelled.
- Logging (`LOGGER.debug`) and the exception object are left out. Only the fact that an exception happened decides the result.
- The task-dependency inference engine (value classifier, lazy values, producer registry, resolver) is not part of this model, because none of its source is available.
