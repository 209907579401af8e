/** What the resolver promises, stated over every filesystem, every
    extension priority list and every input. */
module ConfigResolutionProperties {
  import opened Paths
  import opened FileSystems
  import opened ConfigResolution

  /** No extension of `exts` has a config file in `dir`. */
  predicate NoConfigFile(fs: FileSystem, dir: Path, exts: seq<string>) {
    forall k :: 0 <= k < |exts| ==> !IsFile(fs, ConfigFilePath(dir, exts[k]))
  }

  // ---- the extension scan ----

  /** The first config file found is the one whose extension comes earliest
      in the priority list among those present, whatever comes after it. */
  lemma {:induction false} FirstConfigIsEarliest(fs: FileSystem, dir: Path, exts: seq<string>, k: nat)
    requires k < |exts| && IsFile(fs, ConfigFilePath(dir, exts[k]))
    requires forall k' :: 0 <= k' < k ==> !IsFile(fs, ConfigFilePath(dir, exts[k']))
    ensures ConfigFilesIn(fs, dir, exts) != []
    ensures ConfigFilesIn(fs, dir, exts)[0] == ConfigFilePath(dir, exts[k])
  {
    assert exts == exts[..k] + exts[k..];
    ConfigFilesInConcat(fs, dir, exts[..k], exts[k..]);
    assert NoConfigFile(fs, dir, exts[..k]);
    ConfigFilesInEmpty(fs, dir, exts[..k]);
    assert exts[k..][0] == exts[k];
  }

  /** Within `exts[lo..hi]`, when exactly the extension at `k` has a config
      file, scanning that slice finds that file alone. */
  lemma OnlyConfigFileBetween(fs: FileSystem, dir: Path, exts: seq<string>, lo: nat, k: nat, hi: nat)
    requires lo <= k < hi <= |exts|
    requires forall m :: lo <= m < hi ==> (IsFile(fs, ConfigFilePath(dir, exts[m])) <==> m == k)
    ensures ConfigFilesIn(fs, dir, exts[lo..hi]) == [ConfigFilePath(dir, exts[k])]
  {
    var before, after := exts[lo..k], exts[k + 1..hi];
    assert exts[lo..hi] == before + [exts[k]] + after;
    assert NoConfigFile(fs, dir, before) by {
      forall m | 0 <= m < |before| ensures !IsFile(fs, ConfigFilePath(dir, before[m])) {
        assert before[m] == exts[lo + m];
      }
    }
    assert NoConfigFile(fs, dir, after) by {
      forall m | 0 <= m < |after| ensures !IsFile(fs, ConfigFilePath(dir, after[m])) {
        assert after[m] == exts[k + 1 + m];
      }
    }
    ConfigFilesInEmpty(fs, dir, before);
    ConfigFilesInEmpty(fs, dir, after);
    ConfigFilesInSingle(fs, dir, exts[k]);
    ConfigFilesInConcat(fs, dir, before, [exts[k]]);
    ConfigFilesInConcat(fs, dir, before + [exts[k]], after);
  }

  /** When exactly the extension at `k` has a config file, the scan finds that file alone. */
  lemma OnlyConfigFile(fs: FileSystem, dir: Path, exts: seq<string>, k: nat)
    requires k < |exts|
    requires forall k' :: 0 <= k' < |exts| ==> (IsFile(fs, ConfigFilePath(dir, exts[k'])) <==> k' == k)
    ensures ConfigFilesIn(fs, dir, exts) == [ConfigFilePath(dir, exts[k])]
  {
    OnlyConfigFileBetween(fs, dir, exts, 0, k, |exts|);
    assert exts[0..|exts|] == exts;
  }

  /** When exactly the extensions at `i` and `j` have config files, the
      scan finds both, the one at the earlier position first. */
  lemma TwoConfigFiles(fs: FileSystem, dir: Path, exts: seq<string>, i: nat, j: nat)
    requires i < j < |exts|
    requires forall k :: 0 <= k < |exts| ==> (IsFile(fs, ConfigFilePath(dir, exts[k])) <==> k == i || k == j)
    ensures ConfigFilesIn(fs, dir, exts) == [ConfigFilePath(dir, exts[i]), ConfigFilePath(dir, exts[j])]
  {
    var front, back := exts[0..i + 1], exts[i + 1..|exts|];
    assert ConfigFilesIn(fs, dir, front) == [ConfigFilePath(dir, exts[i])] by {
      OnlyConfigFileBetween(fs, dir, exts, 0, i, i + 1);
    }
    assert ConfigFilesIn(fs, dir, back) == [ConfigFilePath(dir, exts[j])] by {
      OnlyConfigFileBetween(fs, dir, exts, i + 1, j, |exts|);
    }
    assert exts == front + back;
    ConfigFilesInConcat(fs, dir, front, back);
  }

  // ---- the whole resolution ----

  /** An existing file is returned as its absolute form, whatever else
      exists, with no warning. */
  lemma ExistingFileResolvesToItself(fs: FileSystem, exts: seq<string>, input: Path, rootDir: Path)
    requires IsFile(fs, Resolve(input, rootDir))
    ensures Resolution(fs, exts, input, rootDir) == Outcome(Success(Resolve(input, rootDir)), [])
    ensures IsAbsolute(input) ==> Resolution(fs, exts, input, rootDir).result == Success(input)
    ensures !IsAbsolute(input) ==> Resolution(fs, exts, input, rootDir).result == Success(Join(rootDir, input))
  {
  }

  /** A relative input behaves exactly as its absolute form does. */
  lemma RelativeAndAbsoluteAgree(fs: FileSystem, exts: seq<string>, input: Path, rootDir: Path)
    requires IsAbsolute(rootDir)
    ensures Resolution(fs, exts, input, rootDir) == Resolution(fs, exts, Resolve(input, rootDir), rootDir)
  {
  }

  /** A path that exists neither as a file nor as a directory fails with
      RootDirectoryNotFound, and that is the only way to get that error. */
  lemma MissingPathIsRootDirectoryNotFound(fs: FileSystem, exts: seq<string>, input: Path, rootDir: Path)
    ensures Resolution(fs, exts, input, rootDir).result.Failure? &&
            Resolution(fs, exts, input, rootDir).result.error.RootDirectoryNotFound?
            <==> Resolve(input, rootDir) !in fs
    ensures Resolve(input, rootDir) !in fs ==>
              Resolution(fs, exts, input, rootDir)
                == Outcome(Failure(RootDirectoryNotFound(Resolve(input, rootDir))), [])
  {
  }

  /** ConfigFilesIn finds nothing exactly when no extension has a config file. */
  lemma ConfigFilesInEmpty(fs: FileSystem, dir: Path, exts: seq<string>)
    ensures ConfigFilesIn(fs, dir, exts) == [] <==> NoConfigFile(fs, dir, exts)
  {
    if !NoConfigFile(fs, dir, exts) {
      var k :| 0 <= k < |exts| && IsFile(fs, ConfigFilePath(dir, exts[k]));
      ConfigFilesInComplete(fs, dir, exts, k);
    }
  }

  /** A directory fails with ConfigNotFound exactly when it holds neither a
      `jest.config<ext>` for any listed extension nor a `package.json`. */
  lemma ConfigNotFoundExactlyWhenNoCandidate(fs: FileSystem, exts: seq<string>, input: Path, rootDir: Path)
    ensures var dir := Resolve(input, rootDir);
            Resolution(fs, exts, input, rootDir).result == Failure(ConfigNotFound(dir))
            <==> IsDirectory(fs, dir) && NoConfigFile(fs, dir, exts) && !IsFile(fs, PackageJsonPath(dir))
    ensures var dir := Resolve(input, rootDir);
            Resolution(fs, exts, input, rootDir).result == Failure(ConfigNotFound(dir)) ==>
              Resolution(fs, exts, input, rootDir).warnings == []
  {
    ConfigFilesInEmpty(fs, Resolve(input, rootDir), exts);
  }

  /** With no `jest.config<ext>` present, a directory's `package.json` is
      the result whatever its text, and nothing is warned. */
  lemma PackageJsonIsFallback(fs: FileSystem, exts: seq<string>, input: Path, rootDir: Path)
    requires IsDirectory(fs, Resolve(input, rootDir))
    requires NoConfigFile(fs, Resolve(input, rootDir), exts)
    requires IsFile(fs, PackageJsonPath(Resolve(input, rootDir)))
    ensures Resolution(fs, exts, input, rootDir)
              == Outcome(Success(PackageJsonPath(Resolve(input, rootDir))), [])
  {
    ConfigFilesInEmpty(fs, Resolve(input, rootDir), exts);
  }

  /** In a directory, the `jest.config<ext>` whose extension comes earliest
      among those present wins, over later extensions and over `package.json`. */
  lemma EarliestConfigWins(fs: FileSystem, exts: seq<string>, input: Path, rootDir: Path, k: nat)
    requires IsDirectory(fs, Resolve(input, rootDir))
    requires k < |exts| && IsFile(fs, ConfigFilePath(Resolve(input, rootDir), exts[k]))
    requires forall k' :: 0 <= k' < k ==> !IsFile(fs, ConfigFilePath(Resolve(input, rootDir), exts[k']))
    ensures Resolution(fs, exts, input, rootDir).result
              == Success(ConfigFilePath(Resolve(input, rootDir), exts[k]))
  {
    FirstConfigIsEarliest(fs, Resolve(input, rootDir), exts, k);
  }

  /** Exactly one warning, listing every qualifying candidate, when the
      directory holds two or more of them; none otherwise. Qualifying are the
      `jest.config<ext>` files and `package.json` only when it has a `jest` key. */
  lemma WarnsOnceExactlyWhenSeveralCandidates(fs: FileSystem, exts: seq<string>, input: Path, rootDir: Path)
    ensures var dir := Resolve(input, rootDir);
            var qualifying := |ConfigFilesIn(fs, dir, exts)| + (if HasJestKey(fs, dir) then 1 else 0);
            Resolution(fs, exts, input, rootDir).warnings
              == if IsDirectory(fs, dir) && qualifying >= 2
                 then [MultipleConfigs(Candidates(fs, dir, exts))] else []
  {
  }

  /** With no extension listed twice, a warning names each candidate once,
      config files in extension order and `package.json` last. */
  lemma WarningNamesEachCandidateOnce(fs: FileSystem, exts: seq<string>, input: Path, rootDir: Path)
    requires Distinct(exts)
    ensures forall w :: w in Resolution(fs, exts, input, rootDir).warnings ==>
              w.candidates == Candidates(fs, Resolve(input, rootDir), exts) && Distinct(w.candidates)
  {
    CandidatesDistinct(fs, Resolve(input, rootDir), exts);
  }

  /** A single `jest.config<ext>` beside a `package.json` without a `jest`
      key (or no `package.json` at all) wins silently. */
  lemma ConfigBesidePlainPackageJsonIsSilent(fs: FileSystem, exts: seq<string>, input: Path, rootDir: Path, k: nat)
    requires IsDirectory(fs, Resolve(input, rootDir)) && !HasJestKey(fs, Resolve(input, rootDir))
    requires k < |exts|
    requires forall k' :: 0 <= k' < |exts| ==>
               (IsFile(fs, ConfigFilePath(Resolve(input, rootDir), exts[k'])) <==> k' == k)
    ensures Resolution(fs, exts, input, rootDir)
              == Outcome(Success(ConfigFilePath(Resolve(input, rootDir), exts[k])), [])
  {
    OnlyConfigFile(fs, Resolve(input, rootDir), exts, k);
  }

  /** A single `jest.config<ext>` beside a `package.json` with a `jest` key
      still wins, and one warning names both, the winner first. */
  lemma ConfigBesideJestKeyPackageJsonWarnsOnce(fs: FileSystem, exts: seq<string>, input: Path, rootDir: Path, k: nat)
    requires IsDirectory(fs, Resolve(input, rootDir)) && HasJestKey(fs, Resolve(input, rootDir))
    requires k < |exts|
    requires forall k' :: 0 <= k' < |exts| ==>
               (IsFile(fs, ConfigFilePath(Resolve(input, rootDir), exts[k'])) <==> k' == k)
    ensures var dir := Resolve(input, rootDir);
            Resolution(fs, exts, input, rootDir)
              == Outcome(Success(ConfigFilePath(dir, exts[k])),
                         [MultipleConfigs([ConfigFilePath(dir, exts[k]), PackageJsonPath(dir)])])
  {
    var dir := Resolve(input, rootDir);
    OnlyConfigFile(fs, dir, exts, k);
    assert Candidates(fs, dir, exts) == [ConfigFilePath(dir, exts[k]), PackageJsonPath(dir)];
  }

  /** Two `jest.config<ext>` files: the one whose extension comes first in
      the priority list wins, and one warning names both, the winner first. */
  lemma EarlierOfTwoConfigsWinsWithOneWarning(fs: FileSystem, exts: seq<string>, input: Path, rootDir: Path, i: nat, j: nat)
    requires IsDirectory(fs, Resolve(input, rootDir)) && !HasJestKey(fs, Resolve(input, rootDir))
    requires i < j < |exts|
    requires forall k :: 0 <= k < |exts| ==>
               (IsFile(fs, ConfigFilePath(Resolve(input, rootDir), exts[k])) <==> k == i || k == j)
    ensures var dir := Resolve(input, rootDir);
            Resolution(fs, exts, input, rootDir)
              == Outcome(Success(ConfigFilePath(dir, exts[i])),
                         [MultipleConfigs([ConfigFilePath(dir, exts[i]), ConfigFilePath(dir, exts[j])])])
  {
    var dir := Resolve(input, rootDir);
    TwoConfigFiles(fs, dir, exts, i, j);
    assert Candidates(fs, dir, exts) == [ConfigFilePath(dir, exts[i]), ConfigFilePath(dir, exts[j])];
  }
}
