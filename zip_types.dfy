/** The data the archive fingerprinter works on, and the collaborators it
    consults, which are given as functions it may call but not look into. */
module ZipTypes {
  import opened Wrappers

  /** The bytes of a hash code. */
  type HashCode = seq<bv8>

  /** What reading the next entry of an archive does once the listed entries
      are exhausted: report the end (`getNextEntry` returns null), or throw. */
  datatype Tail = EndOfArchive | ReadError

  /** An archive as its entry stream delivers it: the entries in stream order,
      then the way the stream ends. */
  datatype Archive = Archive(entries: seq<Entry>, tail: Tail)

  /** One archive entry. `nested` is what opening the entry's content as an
      archive yields: `None` when that throws (the content is not a readable
      archive). It is consulted only when the name looks like an archive. */
  datatype Entry = Entry(name: string, isDirectory: bool, content: seq<bv8>, nested: Option<Archive>)

  /** The snapshot of a regular file on disk: its absolute path (which the
      hasher opens; here the result of opening it is `asArchive`), its name
      (used only in the log message, which is not modelled), the hash of its
      whole content, and what opening it as an archive yields (`None` when
      that throws). */
  datatype RegularFileSnapshot = RegularFileSnapshot(
    absolutePath: string,
    name: string,
    contentHash: HashCode,
    asArchive: Option<Archive>)

  /** The kinds of file a fingerprint can describe; the archive hasher only
      ever produces `RegularFile`. */
  datatype FileType = RegularFile | Directory | Missing

  /** A fingerprint of one archive member: its normalized path, its type and
      the hash of its content. */
  datatype Fingerprint = Fingerprint(normalizedPath: string, fileType: FileType, hash: HashCode)

  /** Hashes one entry's content. A `None` hash means the entry is not taken
      into account; `Failed` means reading the entry threw. `configuration`
      is what it contributes to a configuration hash. */
  datatype ResourceHasher = ResourceHasher(
    hash: Entry -> Result<Option<HashCode>>,
    configuration: seq<string>)

  /** Decides from an entry's path segments whether the entry is ignored. */
  datatype ResourceFilter = ResourceFilter(
    shouldBeIgnored: seq<string> -> bool,
    configuration: seq<string>)

  /** Static helpers the hasher calls: the case-insensitive extension test,
      the split of a relative path into segments, and hashing a list of
      fingerprints after sorting it (a fresh hasher, the sorted append, and
      the final digest, taken together). */
  datatype Platform = Platform(
    hasExtensionIgnoresCase: (string, string) -> bool,
    getPathSegments: string -> seq<string>,
    appendSortedToHasher: seq<Fingerprint> -> HashCode)

  /** A configured archive hasher: the two collaborators it is built from. */
  datatype ZipHasher = ZipHasher(resourceHasher: ResourceHasher, resourceFilter: ResourceFilter)
}
