/** The archive hasher's operations as the source runs them: a loop over the
    entry stream that accumulates fingerprints, recursion into nested
    archives, and the fallback on failure. Each is proved to compute what the
    functions of ZipSpec describe. */
module ZipHashing {
  import opened Wrappers
  import opened ZipTypes
  import opened ZipSpec

  /** The fully qualified name of the hasher's class, which leads its
      configuration hash. */
  const ZipHasherClassName: string := "org.gradle.api.internal.changedetection.state.ZipHasher"

  /** Gives the resource filter the path segments of the entry being looked
      at; the walk points it at each entry in turn. */
  class RelativePathFactory {
    var zipEntry: Option<Entry>

    constructor ()
      ensures zipEntry == None
    {
      zipEntry := None;
    }

    method SetZipEntry(e: Entry)
      modifies this
      ensures zipEntry == Some(e)
    {
      zipEntry := Some(e);
    }

    /** The path segments of the current entry's name. */
    function Create(p: Platform): (segments: seq<string>)
      reads this
      requires zipEntry.Some?
      ensures segments == p.getPathSegments(zipEntry.value.name)
    {
      p.getPathSegments(zipEntry.value.name)
    }
  }

  /** A hasher being fed: the strings put into it so far, in order. */
  class Hasher {
    var inputs: seq<string>

    constructor ()
      ensures inputs == []
    {
      inputs := [];
    }

    method PutString(s: string)
      modifies this
      ensures inputs == old(inputs) + [s]
    {
      inputs := inputs + [s];
    }

    /** What a collaborator puts into the hasher to describe its configuration. */
    method PutConfiguration(configuration: seq<string>)
      modifies this
      ensures inputs == old(inputs) + configuration
    {
      inputs := inputs + configuration;
    }
  }

  /** Whether `name` denotes an archive: tries the known extensions in order
      and stops at the first match. */
  method IsZipFile(p: Platform, name: string) returns (r: bool)
    ensures r <==> exists ext :: ext in KnownZipExtensions && p.hasExtensionIgnoresCase(name, ext)
    ensures r == IsZipName(p, name)
  {
    MatchesAnyExtensionIff(p, name, KnownZipExtensions);
    var i := 0;
    while i < |KnownZipExtensions|
      invariant 0 <= i <= |KnownZipExtensions|
      invariant forall j :: 0 <= j < i ==> !p.hasExtensionIgnoresCase(name, KnownZipExtensions[j])
    {
      if p.hasExtensionIgnoresCase(name, KnownZipExtensions[i]) {
        return true;
      }
      i := i + 1;
    }
    return false;
  }

  /** Walks an archive's entry stream: skips directories and ignored entries,
      splices in the fingerprints of nested archives, and adds one fingerprint
      per other entry whose hash is non-null. Any exception ends the walk. */
  method FingerprintZipEntries(zh: ZipHasher, p: Platform, input: Archive) returns (r: Result<seq<Fingerprint>>)
    ensures r == ArchiveFingerprints(zh, p, input)
    decreases input
  {
    var fingerprints: seq<Fingerprint> := [];
    var relativePathFactory := new RelativePathFactory();
    var es := input.entries;
    var i := 0;
    while i < |es|
      invariant 0 <= i <= |es|
      invariant EntriesFingerprints(zh, p, es[..i]) == Ok(fingerprints)
    {
      var zipEntry := es[i];
      assert es[..i + 1][..i] == es[..i];
      assert EntriesFingerprints(zh, p, es[..i + 1])
          == Concat(EntriesFingerprints(zh, p, es[..i]), EntryFingerprints(zh, p, zipEntry));
      relativePathFactory.SetZipEntry(zipEntry);
      assert relativePathFactory.Create(p) == p.getPathSegments(zipEntry.name);
      if zipEntry.isDirectory || zh.resourceFilter.shouldBeIgnored(relativePathFactory.Create(p)) {
        assert EntryFingerprints(zh, p, zipEntry) == Ok([]);
        assert fingerprints + [] == fingerprints;
        i := i + 1;
        continue;
      }
      var isZip := IsZipFile(p, zipEntry.name);
      if isZip {
        match zipEntry.nested
        case None =>
          FailedPrefixFailsAll(zh, p, es, i + 1);
          return Failed;
        case Some(inner) =>
          var nested := FingerprintZipEntries(zh, p, inner);
          if nested.Failed? {
            FailedPrefixFailsAll(zh, p, es, i + 1);
            return Failed;
          }
          assert EntryFingerprints(zh, p, zipEntry) == nested;
          fingerprints := fingerprints + nested.value;
      } else {
        var hash := zh.resourceHasher.hash(zipEntry);
        match hash
        case Failed =>
          FailedPrefixFailsAll(zh, p, es, i + 1);
          return Failed;
        case Ok(None) =>
          assert EntryFingerprints(zh, p, zipEntry) == Ok([]);
          assert fingerprints + [] == fingerprints;
        case Ok(Some(h)) =>
          assert EntryFingerprints(zh, p, zipEntry) == Ok([Fingerprint(zipEntry.name, RegularFile, h)]);
          fingerprints := fingerprints + [Fingerprint(zipEntry.name, RegularFile, h)];
      }
      i := i + 1;
    }
    assert es[..i] == es;
    if input.tail == ReadError {
      return Failed;
    }
    return Ok(fingerprints);
  }

  /** Opens the file as an archive and walks it. */
  method FingerprintZipFile(zh: ZipHasher, p: Platform, zipFile: RegularFileSnapshot) returns (r: Result<seq<Fingerprint>>)
    ensures r == FileFingerprints(zh, p, zipFile)
  {
    match zipFile.asArchive
    case None =>
      return Failed;
    case Some(input) =>
      r := FingerprintZipEntries(zh, p, input);
  }

  /** The whole-content hash used when the file cannot be walked. */
  function HashMalformedZip(zipFileSnapshot: RegularFileSnapshot): (h: HashCode)
    ensures h == zipFileSnapshot.contentHash
  {
    zipFileSnapshot.contentHash
  }

  /** Hashes the file's entries, or falls back to its content hash on failure. */
  method HashZipContents(zh: ZipHasher, p: Platform, zipFileSnapshot: RegularFileSnapshot) returns (r: Option<HashCode>)
    ensures r == ZipHash(zh, p, zipFileSnapshot)
    ensures r.None? <==> FileFingerprints(zh, p, zipFileSnapshot) == Ok([])
  {
    var fingerprints := FingerprintZipFile(zh, p, zipFileSnapshot);
    match fingerprints
    case Failed =>
      return Some(HashMalformedZip(zipFileSnapshot));
    case Ok(fs) =>
      if |fs| == 0 {
        return None;
      }
      return Some(p.appendSortedToHasher(fs));
  }

  method Hash(zh: ZipHasher, p: Platform, fileSnapshot: RegularFileSnapshot) returns (r: Option<HashCode>)
    ensures r == ZipHash(zh, p, fileSnapshot)
  {
    r := HashZipContents(zh, p, fileSnapshot);
  }

  /** Describes the hasher's configuration: its class name, then the resource
      hasher's configuration, then the resource filter's. */
  method AppendConfigurationToHasher(zh: ZipHasher, hasher: Hasher)
    modifies hasher
    ensures hasher.inputs
         == old(hasher.inputs) + [ZipHasherClassName]
          + zh.resourceHasher.configuration + zh.resourceFilter.configuration
  {
    hasher.PutString(ZipHasherClassName);
    hasher.PutConfiguration(zh.resourceHasher.configuration);
    hasher.PutConfiguration(zh.resourceFilter.configuration);
  }
}
