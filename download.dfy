/** The decision logic of bin/download.js: which release archive to fetch for
    the running platform, which tar entry to keep, which digest the SHA256SUMS
    manifest pins for the archive, and whether the downloaded bytes are accepted.
    The SHA-256 computation, the torrent transport, gunzip/tar streaming and the
    file moves are outside the model; the digest of the downloaded stream is an
    opaque hex string given as input. */
module Download {
  import opened Wrappers
  import opened JsStrings

  // ---------------------------------------------------------------------------
  // getArchiveFilename

  datatype LocateError = UnsupportedArch(arch: string) | UnsupportedPlatform(platform: string)

  /** The message of the `Error` thrown for each failure. */
  function LocateMessage(e: LocateError): string {
    match e
    case UnsupportedArch(a) => "Arch \"" + a + "\" not supported"
    case UnsupportedPlatform(p) => "Platform \"" + p + "\" is not supported"
  }

  /** `withPrefix`: every archive name starts with `bitcoin-<version>-`. */
  function ArchivePrefix(version: string): string {
    "bitcoin-" + version + "-"
  }

  const LinuxArchs: set<string> := {"x32", "x64", "arm", "arm64"}

  /** The supported matrix: macOS on any architecture, Linux on four. */
  predicate Supported(platform: string, arch: string) {
    platform == "darwin" || (platform == "linux" && arch in LinuxArchs)
  }

  /** The platform part of the archive name, for a supported pair: the five
      filenames `GetArchiveFilename` passes to `withPrefix`, restated as a table
      so that the inverse `VersionOf` can cut them off. `ArchiveNameOf` proves
      that the two agree. */
  function PlatformSuffix(platform: string, arch: string): string
    requires Supported(platform, arch)
  {
    if platform == "darwin" then "osx64.tar.gz"
    else if arch == "x32" then "i686-pc-linux-gnu.tar.gz"
    else if arch == "x64" then "x86_64-linux-gnu.tar.gz"
    else if arch == "arm" then "arm-linux-gnueabihf.tar.gz"
    else "aarch64-linux-gnu.tar.gz"
  }

  /** Release archive for `process.platform`, `process.arch` and the pinned
      version; unsupported pairs fail closed with an error and no name. */
  function GetArchiveFilename(platform: string, arch: string, version: string): (r: Result<string, LocateError>)
    ensures r.Success? <==> Supported(platform, arch)
    ensures r.Success? ==> StartsWith(r.value, ArchivePrefix(version))
    ensures platform == "darwin" ==> r == Success(ArchivePrefix(version) + "osx64.tar.gz")
    ensures platform == "linux" && arch == "x32" ==> r == Success(ArchivePrefix(version) + "i686-pc-linux-gnu.tar.gz")
    ensures platform == "linux" && arch == "x64" ==> r == Success(ArchivePrefix(version) + "x86_64-linux-gnu.tar.gz")
    ensures platform == "linux" && arch == "arm" ==> r == Success(ArchivePrefix(version) + "arm-linux-gnueabihf.tar.gz")
    ensures platform == "linux" && arch == "arm64" ==> r == Success(ArchivePrefix(version) + "aarch64-linux-gnu.tar.gz")
    ensures platform == "linux" && arch !in LinuxArchs ==> r == Failure(UnsupportedArch(arch))
    ensures platform != "darwin" && platform != "linux" ==> r == Failure(UnsupportedPlatform(platform))
  {
    if platform == "darwin" then WithPrefix(version, "osx64.tar.gz")
    else if platform == "linux" then
      if arch == "x32" then WithPrefix(version, "i686-pc-linux-gnu.tar.gz")
      else if arch == "x64" then WithPrefix(version, "x86_64-linux-gnu.tar.gz")
      else if arch == "arm" then WithPrefix(version, "arm-linux-gnueabihf.tar.gz")
      else if arch == "arm64" then WithPrefix(version, "aarch64-linux-gnu.tar.gz")
      else Failure(UnsupportedArch(arch))
    else Failure(UnsupportedPlatform(platform))
  }

  /** `withPrefix` of lines 127-129, wrapped as a successful result. */
  function WithPrefix(version: string, filename: string): (r: Result<string, LocateError>)
    ensures r.Success? && StartsWith(r.value, ArchivePrefix(version))
    ensures EndsWith(r.value, filename)
    ensures |r.value| == |ArchivePrefix(version)| + |filename|
  {
    var name := ArchivePrefix(version) + filename;
    assert name[..|ArchivePrefix(version)|] == ArchivePrefix(version);
    assert name[|name| - |filename|..] == filename;
    Success(name)
  }

  /** The version read back out of an archive name for a known platform. */
  function VersionOf(platform: string, arch: string, filename: string): string
    requires Supported(platform, arch)
  {
    var lo, hi := |"bitcoin-"|, |filename| - |PlatformSuffix(platform, arch)| - 1;
    if lo <= hi <= |filename| then filename[lo..hi] else ""
  }

  /** The archive name determines the version it was built from. */
  lemma ArchiveNameDeterminesVersion(platform: string, arch: string, version: string)
    requires Supported(platform, arch)
    ensures GetArchiveFilename(platform, arch, version).Success?
    ensures VersionOf(platform, arch, GetArchiveFilename(platform, arch, version).value) == version
  {
    ArchiveNameOf(platform, arch, version);
    VersionOfName(platform, arch, version);
  }

  lemma VersionOfName(platform: string, arch: string, version: string)
    requires Supported(platform, arch)
    ensures VersionOf(platform, arch, ArchivePrefix(version) + PlatformSuffix(platform, arch)) == version
  {
    var suffix := PlatformSuffix(platform, arch);
    MiddleOf("bitcoin-", version, "-" + suffix);
    assert ArchivePrefix(version) + suffix == "bitcoin-" + version + ("-" + suffix);
  }

  /** For a supported pair the name is the prefix and the platform suffix. */
  lemma ArchiveNameOf(platform: string, arch: string, version: string)
    requires Supported(platform, arch)
    ensures GetArchiveFilename(platform, arch, version) == Success(ArchivePrefix(version) + PlatformSuffix(platform, arch))
  {
    if platform == "linux" {
      assert arch == "x32" || arch == "x64" || arch == "arm" || arch == "arm64";
    }
  }

  lemma MiddleOf(a: string, m: string, b: string)
    ensures (a + m + b)[|a|..|a + m + b| - |b|] == m
  {
    assert a + m + b == a + (m + b);
  }

  // ---------------------------------------------------------------------------
  // the tar extraction filter (lines 75-77)

  /** The one tar entry the extraction keeps. */
  function BinaryEntry(version: string): string {
    "bitcoin-" + version + "/bin/bitcoind"
  }

  predicate ExtractFilter(version: string, path: string) {
    path == BinaryEntry(version)
  }

  /** The filter accepts the daemon binary of its own version and nothing else:
      no second path, and no binary of another version. */
  lemma ExtractFilterAcceptsOnlyBinary(version: string, other: string, path: string)
    ensures ExtractFilter(version, BinaryEntry(version))
    ensures ExtractFilter(version, path) ==> path == "bitcoin-" + version + "/bin/bitcoind"
    ensures other != version ==> !ExtractFilter(version, BinaryEntry(other))
  {
    if ExtractFilter(version, BinaryEntry(other)) {
      var e, tail := BinaryEntry(other), |"/bin/bitcoind"|;
      assert e[|"bitcoin-"|..|e| - tail] == other;
      assert e[|"bitcoin-"|..|e| - tail] == version;
    }
  }

  // ---------------------------------------------------------------------------
  // the SHA256SUMS lookup (lines 97-106)

  /** `shasum` of `let [shasum, filename] = line.split(/\s+/)`. */
  function ShasumField(line: string): string {
    SplitSpaces(line)[0]
  }

  /** `filename` of the same destructuring; a line with one field leaves it
      `undefined`, which `endsWith` converts to the string "undefined". */
  function FilenameField(line: string): string {
    var fields := SplitSpaces(line);
    if |fields| > 1 then fields[1] else "undefined"
  }

  /** A line is an entry for `archive` when its first field has length 64 and
      its second field is a suffix of the archive name. The digest field is
      checked for its length only, not for being hexadecimal. */
  predicate MatchesArchive(line: string, archive: string) {
    |ShasumField(line)| == 64 && EndsWith(archive, FilenameField(line))
  }

  /** `shasums.split('\n').slice(3)`: the lines after the three-line preamble. */
  function EntryLines(shasums: string): seq<string> {
    var lines := Split(shasums, '\n');
    if |lines| < 3 then [] else lines[3..]
  }

  /** Reference definition: the digest of the first line that matches. */
  function FirstMatch(lines: seq<string>, archive: string): (r: Option<string>)
    ensures r.Some? ==> |r.value| == 64
  {
    if lines == [] then None
    else if MatchesArchive(lines[0], archive) then Some(ShasumField(lines[0]))
    else FirstMatch(lines[1..], archive)
  }

  /** The loop of lines 98-106: skip lines whose digest field is not 64
      characters long, stop at the first line whose filename ends the archive
      name. */
  method FindExpectedHash(shasums: string, archive: string) returns (expected: Option<string>)
    ensures expected == FirstMatch(EntryLines(shasums), archive)
    ensures expected.Some? ==>
      exists i :: 0 <= i < |EntryLines(shasums)| && MatchesArchive(EntryLines(shasums)[i], archive)
        && ShasumField(EntryLines(shasums)[i]) == expected.value
        && forall j :: 0 <= j < i ==> !MatchesArchive(EntryLines(shasums)[j], archive)
    ensures expected.None? ==>
      forall i :: 0 <= i < |EntryLines(shasums)| ==> !MatchesArchive(EntryLines(shasums)[i], archive)
  {
    var lines := EntryLines(shasums);
    expected := None;
    var i := 0;
    while i < |lines|
      invariant 0 <= i <= |lines|
      invariant forall j :: 0 <= j < i ==> !MatchesArchive(lines[j], archive)
      invariant FirstMatch(lines, archive) == FirstMatch(lines[i..], archive)
    {
      FirstMatchStep(lines, i, archive);
      var fields := SplitSpaces(lines[i]);
      var shasum := fields[0];
      var filename := if |fields| > 1 then fields[1] else "undefined";
      if |shasum| != 64 {
        i := i + 1;
        continue;
      }
      if EndsWith(archive, filename) {
        expected := Some(shasum);
        break;
      }
      i := i + 1;
    }
    if expected.Some? {
      assert MatchesArchive(lines[i], archive) && ShasumField(lines[i]) == expected.value;
    } else {
      assert i == |lines| && lines[i..] == [];
    }
  }

  /** One step of the reference definition at position `i`. */
  lemma FirstMatchStep(lines: seq<string>, i: nat, archive: string)
    requires i < |lines|
    ensures FirstMatch(lines[i..], archive) ==
      if MatchesArchive(lines[i], archive) then Some(ShasumField(lines[i]))
      else FirstMatch(lines[i + 1..], archive)
  {
    assert lines[i..][0] == lines[i] && lines[i..][1..] == lines[i + 1..];
  }

  /** Only the lines after the preamble count: manifests whose lines agree from
      the fourth line on pin the same digest. */
  lemma PreambleIgnored(shasums1: string, shasums2: string, archive: string)
    requires |Split(shasums1, '\n')| >= 3 && |Split(shasums2, '\n')| >= 3
    requires Split(shasums1, '\n')[3..] == Split(shasums2, '\n')[3..]
    ensures FirstMatch(EntryLines(shasums1), archive) == FirstMatch(EntryLines(shasums2), archive)
  {
  }

  /** The first matching line decides: lines after it are never consulted. */
  lemma {:induction false} FirstMatchIgnoresLaterLines(lines: seq<string>, later: seq<string>, archive: string)
    requires FirstMatch(lines, archive).Some?
    ensures FirstMatch(lines + later, archive) == FirstMatch(lines, archive)
  {
    assert (lines + later)[0] == lines[0];
    if !MatchesArchive(lines[0], archive) {
      assert (lines + later)[1..] == lines[1..] + later;
      FirstMatchIgnoresLaterLines(lines[1..], later, archive);
    }
  }

  /** Characterisation of the reference definition by position. */
  lemma {:induction false} FirstMatchAt(lines: seq<string>, archive: string, i: nat)
    requires i < |lines| && MatchesArchive(lines[i], archive)
    requires forall j :: 0 <= j < i ==> !MatchesArchive(lines[j], archive)
    ensures FirstMatch(lines, archive) == Some(ShasumField(lines[i]))
  {
    if i > 0 {
      FirstMatchAt(lines[1..], archive, i - 1);
    }
  }

  /** A typical manifest entry `<digest>  <name>` pins `digest` for every
      archive name that ends with `name`. */
  lemma EntryLineMatches(digest: string, gap: string, name: string, archive: string)
    requires |digest| == 64 && NoSpace(digest) && NoSpace(name) && name != []
    requires gap != [] && forall i :: 0 <= i < |gap| ==> IsSpace(gap[i])
    requires EndsWith(archive, name)
    ensures MatchesArchive(digest + gap + name, archive)
    ensures ShasumField(digest + gap + name) == digest
  {
    SplitSpacesTwoFields(digest, gap, name);
  }

  /** A 64-character first field followed by whitespace and nothing else leaves
      the filename field empty, and the empty string ends every archive name:
      such a line is taken as the entry for any archive. */
  lemma EmptyFilenameMatchesAnyArchive(digest: string, archive: string)
    requires |digest| == 64 && NoSpace(digest)
    ensures MatchesArchive(digest + " ", archive)
  {
    TokenLengthOf(digest, " ");
    assert (digest + " ")[64..] == " ";
    assert SpaceRun(" ") == 1;
    assert SplitSpaces(digest + " ") == [digest, ""];
  }

  // ---------------------------------------------------------------------------
  // the accept/reject decision (lines 108-111)

  /** `actualHash !== expectedHash` rejects; an `undefined` expected digest
      never equals the computed one. */
  function HashAccepted(actual: string, expected: Option<string>): (ok: bool)
    ensures ok <==> expected.Some? && expected.value == actual
  {
    match expected
    case None => false
    case Some(h) => h == actual
  }

  /** The integrity check admits only one digest for a given expectation, so a
      download whose digest differs from an accepted one is rejected. */
  lemma OnlyOneDigestAccepted(actual: string, other: string, expected: Option<string>)
    requires HashAccepted(actual, expected) && other != actual
    ensures !HashAccepted(other, expected)
  {
  }

  // ---------------------------------------------------------------------------
  // the whole script, with the file system and the transfer as inputs

  /** The result of a file-system call: success or an error `code`. */
  datatype FsStatus = FsOk | FsError(code: string)

  datatype Acquisition =
    | CacheHit                       // cached binary copied, exit 0
    | FsFailure(code: string)        // a cache error other than ENOENT, rethrown
    | LocateFailure(message: string) // getArchiveFilename threw
    | IntegrityMismatch              // digest did not match, exit 1
    | Installed(archive: string)     // verified binary moved into place and cached

  /** What the cache `try` block (lines 29-36) yields: the first failing call
      of `accessSync` then `copyFileSync`, or success. */
  function CacheProbe(access: FsStatus, copy: FsStatus): (r: FsStatus)
    ensures r == FsOk <==> access == FsOk && copy == FsOk
    ensures access.FsError? ==> r == access
    ensures access == FsOk ==> r == copy
  {
    if access.FsError? then access else copy
  }

  /** The script: try the cache, locate the archive, and verify the transferred
      archive (whose SHA-256 hex digest is `actualHash`) against the manifest. */
  method Acquire(access: FsStatus, copy: FsStatus, platform: string, arch: string,
                 version: string, shasums: string, actualHash: string) returns (a: Acquisition)
    ensures a == CacheHit <==> access == FsOk && copy == FsOk
    ensures a.FsFailure? <==> CacheProbe(access, copy).FsError? && CacheProbe(access, copy).code != "ENOENT"
    ensures a.FsFailure? ==> a.code == CacheProbe(access, copy).code
    ensures a.LocateFailure? <==> CacheProbe(access, copy) == FsError("ENOENT") && !Supported(platform, arch)
    ensures a.LocateFailure? ==> a.message == LocateMessage(GetArchiveFilename(platform, arch, version).error)
    ensures a.Installed? <==>
      CacheProbe(access, copy) == FsError("ENOENT") && Supported(platform, arch)
      && FirstMatch(EntryLines(shasums), GetArchiveFilename(platform, arch, version).value) == Some(actualHash)
    ensures a.Installed? ==> a.archive == GetArchiveFilename(platform, arch, version).value
  {
    var probe := CacheProbe(access, copy);
    if probe == FsOk {
      return CacheHit;
    }
    if probe.code != "ENOENT" {
      return FsFailure(probe.code);
    }
    var located := GetArchiveFilename(platform, arch, version);
    if located.Failure? {
      return LocateFailure(LocateMessage(located.error));
    }
    var archive := located.value;
    var expectedHash := FindExpectedHash(shasums, archive);
    if !HashAccepted(actualHash, expectedHash) {
      return IntegrityMismatch;
    }
    return Installed(archive);
  }
}
