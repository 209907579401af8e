/** The resolver's test scenarios, stated against the imperative resolver.
    The test directory `root` stands for a fresh directory under the
    system's temporary directory; writing files into it is a map update,
    and the recorder of warnings is a WarningSink that is cleared before
    each group of checked calls. */
module ResolveConfigPathTests {
  import opened Paths
  import opened FileSystems
  import opened ConfigResolution
  import opened ConfigResolutionProperties
  import opened Pairs

  /** The directory every scenario works in, `a/b/c` under the test directory. */
  function TestDir(root: Path): Path {
    Join(root, "a/b/c")
  }

  /** The test directory with the directories `a`, `a/b` and `a/b/c` inside it. */
  function Skeleton(root: Path): FileSystem {
    map[root := Directory, Join(root, "a") := Directory, Join(root, "a/b") := Directory,
        TestDir(root) := Directory]
  }

  // ---- facts about the fixture's paths ----

  lemma NothingUnderTestDirInSkeleton(root: Path, name: Path)
    ensures Join(TestDir(root), name) !in Skeleton(root)
  {
  }

  /** A config file path is never a path whose name starts with another letter. */
  lemma ConfigFilePathIsNot(dir: Path, ext: string, name: Path)
    requires name != [] && name[0] != 'j'
    ensures ConfigFilePath(dir, ext) != Join(dir, name)
  {
    JoinInjective(dir, JestConfigBaseName + ext, name);
    assert (JestConfigBaseName + ext)[0] == 'j';
  }

  /** Every path under the test directory differs from `/does_not_exist`. */
  lemma NotDoesNotExist(root: Path, rel: Path)
    requires rel != [] && rel[0] == 'a'
    ensures Join(root, rel) != "/does_not_exist"
  {
  }

  /** Only position `k` of a list of distinct extensions holds `exts[k]`. */
  lemma DistinctPosition(exts: seq<string>, k: nat, k': nat)
    requires Distinct(exts) && k < |exts| && k' < |exts|
    ensures exts[k'] == exts[k] <==> k' == k
  {
  }

  // ---- the directory scenario's four states ----

  /** `a/b/c/some_random_file<ext>` only. */
  function UnrelatedFileTree(root: Path, ext: string): FileSystem {
    Skeleton(root)[Join(TestDir(root), "some_random_file" + ext) := File(false)]
  }

  /** ... plus an empty `a/b/c/package.json`. */
  function EmptyPackageJsonTree(root: Path, ext: string): FileSystem {
    UnrelatedFileTree(root, ext)[PackageJsonPath(TestDir(root)) := File(false)]
  }

  /** ... plus `a/b/c/jest.config<ext>`. */
  function ConfigFileTree(root: Path, ext: string): FileSystem {
    EmptyPackageJsonTree(root, ext)[ConfigFilePath(TestDir(root), ext) := File(false)]
  }

  /** ... with `package.json` rewritten to hold a `jest` key. */
  function JestKeyTree(root: Path, ext: string): FileSystem {
    ConfigFileTree(root, ext)[PackageJsonPath(TestDir(root)) := File(true)]
  }

  lemma NoConfigFileBesideUnrelatedFile(root: Path, exts: seq<string>, ext: string)
    ensures NoConfigFile(EmptyPackageJsonTree(root, ext), TestDir(root), exts)
    ensures NoConfigFile(UnrelatedFileTree(root, ext), TestDir(root), exts)
  {
    var dir := TestDir(root);
    forall k | 0 <= k < |exts|
      ensures !IsFile(EmptyPackageJsonTree(root, ext), ConfigFilePath(dir, exts[k]))
      ensures !IsFile(UnrelatedFileTree(root, ext), ConfigFilePath(dir, exts[k]))
    {
      NothingUnderTestDirInSkeleton(root, JestConfigBaseName + exts[k]);
      ConfigFilePathIsNot(dir, exts[k], "some_random_file" + ext);
      ConfigFilePathIsNot(dir, exts[k], PackageJsonName);
    }
  }

  lemma UnrelatedFileIsNoConfig(root: Path, exts: seq<string>, ext: string, input: Path)
    requires Resolve(input, root) == TestDir(root)
    ensures Resolution(UnrelatedFileTree(root, ext), exts, input, root)
              == Outcome(Failure(ConfigNotFound(TestDir(root))), [])
  {
    NoConfigFileBesideUnrelatedFile(root, exts, ext);
    NothingUnderTestDirInSkeleton(root, PackageJsonName);
    JoinInjective(TestDir(root), PackageJsonName, "some_random_file" + ext);
    ConfigNotFoundExactlyWhenNoCandidate(UnrelatedFileTree(root, ext), exts, input, root);
  }

  lemma EmptyPackageJsonIsUsed(root: Path, exts: seq<string>, ext: string, input: Path)
    requires Resolve(input, root) == TestDir(root)
    ensures Resolution(EmptyPackageJsonTree(root, ext), exts, input, root)
              == Outcome(Success(PackageJsonPath(TestDir(root))), [])
  {
    NoConfigFileBesideUnrelatedFile(root, exts, ext);
    PackageJsonIsFallback(EmptyPackageJsonTree(root, ext), exts, input, root);
  }

  /** In the last two states exactly the listed extension `ext` has a config file. */
  lemma OnlyExtHasConfigFile(root: Path, exts: seq<string>, kExt: nat)
    requires Distinct(exts) && kExt < |exts|
    ensures forall k :: 0 <= k < |exts| ==>
              (IsFile(ConfigFileTree(root, exts[kExt]), ConfigFilePath(TestDir(root), exts[k])) <==> k == kExt)
    ensures forall k :: 0 <= k < |exts| ==>
              (IsFile(JestKeyTree(root, exts[kExt]), ConfigFilePath(TestDir(root), exts[k])) <==> k == kExt)
  {
    var dir, ext := TestDir(root), exts[kExt];
    NoConfigFileBesideUnrelatedFile(root, exts, ext);
    ConfigFilePathIsNot(dir, ext, PackageJsonName);
    forall k | 0 <= k < |exts|
      ensures IsFile(ConfigFileTree(root, ext), ConfigFilePath(dir, exts[k])) <==> k == kExt
      ensures IsFile(JestKeyTree(root, ext), ConfigFilePath(dir, exts[k])) <==> k == kExt
    {
      ConfigFilePathInjective(dir, exts[k], ext);
      ConfigFilePathIsNot(dir, exts[k], PackageJsonName);
      DistinctPosition(exts, kExt, k);
    }
  }

  lemma ConfigFileWinsSilently(root: Path, exts: seq<string>, kExt: nat, input: Path)
    requires Distinct(exts) && kExt < |exts|
    requires Resolve(input, root) == TestDir(root)
    ensures Resolution(ConfigFileTree(root, exts[kExt]), exts, input, root)
              == Outcome(Success(ConfigFilePath(TestDir(root), exts[kExt])), [])
  {
    OnlyExtHasConfigFile(root, exts, kExt);
    ConfigFilePathIsNot(TestDir(root), exts[kExt], PackageJsonName);
    ConfigBesidePlainPackageJsonIsSilent(ConfigFileTree(root, exts[kExt]), exts, input, root, kExt);
  }

  lemma ConfigFileWinsWithWarning(root: Path, exts: seq<string>, kExt: nat, input: Path)
    requires Distinct(exts) && kExt < |exts|
    requires Resolve(input, root) == TestDir(root)
    ensures var dir := TestDir(root);
            Resolution(JestKeyTree(root, exts[kExt]), exts, input, root)
              == Outcome(Success(ConfigFilePath(dir, exts[kExt])),
                         [MultipleConfigs([ConfigFilePath(dir, exts[kExt]), PackageJsonPath(dir)])])
  {
    OnlyExtHasConfigFile(root, exts, kExt);
    ConfigBesideJestKeyPackageJsonWarnsOnce(JestKeyTree(root, exts[kExt]), exts, input, root, kExt);
  }

  // ---- the file scenario ----

  /** `a/b/c/my_config<ext>` in the test directory. */
  function ConfigFileOnlyTree(root: Path, ext: string): FileSystem {
    Skeleton(root)[Join(root, "a/b/c/my_config" + ext) := File(false)]
  }

  lemma MissingPathsAreNoRootDirectory(root: Path, exts: seq<string>, ext: string)
    requires IsAbsolute(root) && root != "/does_not_exist"
    ensures Resolution(ConfigFileOnlyTree(root, ext), exts, "/does_not_exist", root)
              == Outcome(Failure(RootDirectoryNotFound("/does_not_exist")), [])
    ensures Resolution(ConfigFileOnlyTree(root, ext), exts, "does_not_exist", root)
              == Outcome(Failure(RootDirectoryNotFound(Join(root, "does_not_exist"))), [])
  {
    NotDoesNotExist(root, "a");
    NotDoesNotExist(root, "a/b");
    NotDoesNotExist(root, "a/b/c");
    NotDoesNotExist(root, "a/b/c/my_config" + ext);
    assert "/does_not_exist" !in ConfigFileOnlyTree(root, ext);
    assert Join(root, "does_not_exist") !in ConfigFileOnlyTree(root, ext) by {
      JoinInjective(root, "does_not_exist", "a/b/c/my_config" + ext);
      JoinDiffersFromDir(root, "does_not_exist");
    }
  }

  /** A file path, absolute or relative, resolves to the file; a missing
      path, absolute or relative, fails with RootDirectoryNotFound. */
  method FilePathTest(root: Path, exts: seq<string>, ext: string)
    returns (absolute: Result<Path, Error>, missingAbsolute: Result<Path, Error>,
             relative: Result<Path, Error>, missingRelative: Result<Path, Error>)
    requires IsAbsolute(root) && root != "/does_not_exist"
    ensures absolute == Success(Join(root, "a/b/c/my_config" + ext))
    ensures missingAbsolute == Failure(RootDirectoryNotFound("/does_not_exist"))
    ensures relative == Success(Join(root, "a/b/c/my_config" + ext))
    ensures missingRelative == Failure(RootDirectoryNotFound(Join(root, "does_not_exist")))
  {
    var sink := new WarningSink();
    var relativeConfigPath := "a/b/c/my_config" + ext;
    var absoluteConfigPath := Join(root, relativeConfigPath);
    var fs := ConfigFileOnlyTree(root, ext);
    MissingPathsAreNoRootDirectory(root, exts, ext);

    absolute := ResolveConfigPath(fs, exts, absoluteConfigPath, root, sink);
    missingAbsolute := ResolveConfigPath(fs, exts, "/does_not_exist", root, sink);

    relative := ResolveConfigPath(fs, exts, relativeConfigPath, root, sink);
    missingRelative := ResolveConfigPath(fs, exts, "does_not_exist", root, sink);
  }

  // ---- the directory scenario ----

  lemma MissingSubdirectoryIsNoRootDirectory(root: Path, exts: seq<string>, ext: string)
    ensures Resolution(JestKeyTree(root, ext), exts, "a/b/c/j/x/b/m", root)
              == Outcome(Failure(RootDirectoryNotFound(Join(root, "a/b/c/j/x/b/m"))), [])
  {
    JoinAssociative(root, "a/b/c", "some_random_file" + ext);
    JoinAssociative(root, "a/b/c", PackageJsonName);
    JoinAssociative(root, "a/b/c", JestConfigBaseName + ext);
  }

  /** A directory, named absolutely or relatively, as files are added to it:
      an unrelated file alone fails with ConfigNotFound; `package.json`
      alone (empty) is used silently; `jest.config<ext>` beside it wins
      silently; once `package.json` has a `jest` key, `jest.config<ext>`
      still wins and each call warns once. A missing subdirectory fails with
      RootDirectoryNotFound. `recorded` is what the warning recorder holds
      at each of the four points where the scenario inspects it. */
  method DirectoryPathTest(root: Path, exts: seq<string>, ext: string)
    returns (results: seq<Result<Path, Error>>, recorded: seq<seq<Warning>>)
    requires IsAbsolute(root) && Distinct(exts) && ext in exts
    ensures var dir := TestDir(root);
            var pkg, cfg := PackageJsonPath(dir), ConfigFilePath(dir, ext);
            results == [Failure(ConfigNotFound(dir)), Failure(ConfigNotFound(dir)),
                        Success(pkg), Success(pkg),
                        Success(cfg), Success(cfg),
                        Success(cfg), Success(cfg),
                        Failure(RootDirectoryNotFound(Join(root, "a/b/c/j/x/b/m")))]
    ensures var dir := TestDir(root);
            var pkg, cfg := PackageJsonPath(dir), ConfigFilePath(dir, ext);
            recorded == [[], [], [MultipleConfigs([cfg, pkg])], [MultipleConfigs([cfg, pkg])]]
  {
    var sink := new WarningSink();
    var dir := TestDir(root);
    var kExt :| 0 <= kExt < |exts| && exts[kExt] == ext;
    UnrelatedFileIsNoConfig(root, exts, ext, dir);
    UnrelatedFileIsNoConfig(root, exts, ext, "a/b/c");
    EmptyPackageJsonIsUsed(root, exts, ext, dir);
    EmptyPackageJsonIsUsed(root, exts, ext, "a/b/c");
    ConfigFileWinsSilently(root, exts, kExt, dir);
    ConfigFileWinsSilently(root, exts, kExt, "a/b/c");
    ConfigFileWinsWithWarning(root, exts, kExt, dir);
    ConfigFileWinsWithWarning(root, exts, kExt, "a/b/c");
    MissingSubdirectoryIsNoRootDirectory(root, exts, ext);

    // Only an unrelated file: no configuration.
    var fs := UnrelatedFileTree(root, ext);
    var r0 := ResolveConfigPath(fs, exts, dir, root, sink);
    var r1 := ResolveConfigPath(fs, exts, "a/b/c", root, sink);

    // An empty package.json: used, silently.
    fs := EmptyPackageJsonTree(root, ext);
    sink.Clear();
    var r2 := ResolveConfigPath(fs, exts, dir, root, sink);
    var r3 := ResolveConfigPath(fs, exts, "a/b/c", root, sink);
    var w0 := sink.messages;
    assert w0 == [];

    // jest.config<ext> beside a package.json without a jest key: it wins, silently.
    fs := ConfigFileTree(root, ext);
    sink.Clear();
    var r4 := ResolveConfigPath(fs, exts, dir, root, sink);
    var r5 := ResolveConfigPath(fs, exts, "a/b/c", root, sink);
    var w1 := sink.messages;
    assert w1 == [];

    // package.json now has a jest key: jest.config<ext> still wins, with one warning per call.
    fs := JestKeyTree(root, ext);
    sink.Clear();
    var r6 := ResolveConfigPath(fs, exts, dir, root, sink);
    var w2 := sink.messages;
    assert w2 == [MultipleConfigs([ConfigFilePath(dir, ext), PackageJsonPath(dir)])];
    sink.Clear();
    var r7 := ResolveConfigPath(fs, exts, "a/b/c", root, sink);
    var w3 := sink.messages;
    assert w3 == w2;

    // A subdirectory that does not exist.
    var r8 := ResolveConfigPath(fs, exts, "a/b/c/j/x/b/m", root, sink);

    results := [r0, r1, r2, r3, r4, r5, r6, r7, r8];
    recorded := [w0, w1, w2, w3];
  }

  /** For every pair of extensions taken in priority order, a directory
      holding `jest.config<ext1>` and `jest.config<ext2>` resolves to the
      first, and the call warns once, naming both. */
  method MultipleConfigsTest(root: Path, exts: seq<string>, ext1: string, ext2: string)
    returns (result: Result<Path, Error>, recorded: seq<Warning>)
    requires IsAbsolute(root) && Distinct(exts)
    requires (ext1, ext2) in PickPairsWithSameOrder(exts)
    ensures var dir := TestDir(root);
            result == Success(ConfigFilePath(dir, ext1))
    ensures var dir := TestDir(root);
            recorded == [MultipleConfigs([ConfigFilePath(dir, ext1), ConfigFilePath(dir, ext2)])]
  {
    PickPairsOnlyOrderedPairs(exts, (ext1, ext2));
    var i, j :| 0 <= i < j < |exts| && (ext1, ext2) == (exts[i], exts[j]);
    var dir := TestDir(root);
    var fs := Skeleton(root)[ConfigFilePath(dir, ext1) := File(false)][ConfigFilePath(dir, ext2) := File(false)];
    forall k | 0 <= k < |exts| ensures IsFile(fs, ConfigFilePath(dir, exts[k])) <==> k == i || k == j {
      NothingUnderTestDirInSkeleton(root, JestConfigBaseName + exts[k]);
      ConfigFilePathInjective(dir, exts[k], ext1);
      ConfigFilePathInjective(dir, exts[k], ext2);
      DistinctPosition(exts, i, k);
      DistinctPosition(exts, j, k);
    }
    ConfigFilePathIsNot(dir, ext1, PackageJsonName);
    ConfigFilePathIsNot(dir, ext2, PackageJsonName);
    NothingUnderTestDirInSkeleton(root, PackageJsonName);
    EarlierOfTwoConfigsWinsWithOneWarning(fs, exts, "a/b/c", root, i, j);

    var sink := new WarningSink();
    sink.Clear();
    result := ResolveConfigPath(fs, exts, "a/b/c", root, sink);
    recorded := sink.messages;
  }
}
