/** Locating the configuration file of a test-runner project.

    Given an input path and a root directory, the resolver returns:
    - the input itself (made absolute) when it names an existing file;
    - otherwise, when it names an existing directory, the first of
      `jest.config<ext>` (for each extension in priority order) and, when its
      text has a `jest` key, `package.json`; failing those a plain
      `package.json`; failing that, a ConfigNotFound error;
    - otherwise a RootDirectoryNotFound error.
    When a directory holds two or more qualifying candidates, one
    "multiple configurations" warning listing them is emitted. */
module ConfigResolution {
  import opened Paths
  import opened FileSystems

  datatype Result<T, E> = Success(value: T) | Failure(error: E)

  /** The two ways a resolution fails; each names the absolute path involved. */
  datatype Error =
    | RootDirectoryNotFound(path: Path)  // "Can't find a root directory"
    | ConfigNotFound(dir: Path)          // "Could not find a config file based on provided values"

  /** "Multiple configurations found": every qualifying candidate, in
      priority order; the first one is the one used. */
  datatype Warning = MultipleConfigs(candidates: seq<Path>)

  /** What one call produces: its result and the warnings it emitted. */
  datatype Outcome = Outcome(result: Result<Path, Error>, warnings: seq<Warning>)

  const JestConfigBaseName: string := "jest.config"
  const PackageJsonName: string := "package.json"

  /** No element occurs twice in `s`. */
  predicate Distinct<T(==)>(s: seq<T>) {
    forall i, j :: 0 <= i < j < |s| ==> s[i] != s[j]
  }

  function ConfigFilePath(dir: Path, ext: string): Path {
    Join(dir, JestConfigBaseName + ext)
  }

  function PackageJsonPath(dir: Path): Path {
    Join(dir, PackageJsonName)
  }

  /** Different extensions name different config files. */
  lemma ConfigFilePathInjective(dir: Path, ext1: string, ext2: string)
    ensures ConfigFilePath(dir, ext1) == ConfigFilePath(dir, ext2) <==> ext1 == ext2
  {
    JoinInjective(dir, JestConfigBaseName + ext1, JestConfigBaseName + ext2);
    if JestConfigBaseName + ext1 == JestConfigBaseName + ext2 {
      assert ext1 == (JestConfigBaseName + ext1)[|JestConfigBaseName|..];
    }
  }

  /** The `jest.config<ext>` files present in `dir`, in the order of `exts`. */
  function ConfigFilesIn(fs: FileSystem, dir: Path, exts: seq<string>): (r: seq<Path>)
    ensures |r| <= |exts|
    ensures forall p :: p in r ==> IsFile(fs, p)
  {
    if exts == [] then []
    else
      (if IsFile(fs, ConfigFilePath(dir, exts[0])) then [ConfigFilePath(dir, exts[0])] else [])
      + ConfigFilesIn(fs, dir, exts[1..])
  }

  /** Everything the scan finds is `jest.config<ext>` for a listed extension. */
  lemma {:induction false} ConfigFilesInSound(fs: FileSystem, dir: Path, exts: seq<string>, p: Path)
    requires p in ConfigFilesIn(fs, dir, exts)
    ensures exists k :: 0 <= k < |exts| && p == ConfigFilePath(dir, exts[k])
  {
    if p != ConfigFilePath(dir, exts[0]) {
      ConfigFilesInSound(fs, dir, exts[1..], p);
      var k :| 0 <= k < |exts[1..]| && p == ConfigFilePath(dir, exts[1..][k]);
      assert exts[1..][k] == exts[k + 1];
    }
  }

  /** The scan misses no existing `jest.config<ext>` of a listed extension. */
  lemma {:induction false} ConfigFilesInComplete(fs: FileSystem, dir: Path, exts: seq<string>, k: nat)
    requires k < |exts| && IsFile(fs, ConfigFilePath(dir, exts[k]))
    ensures ConfigFilePath(dir, exts[k]) in ConfigFilesIn(fs, dir, exts)
  {
    if k > 0 {
      assert exts[1..][k - 1] == exts[k];
      ConfigFilesInComplete(fs, dir, exts[1..], k - 1);
    }
  }

  /** The scan never reports `package.json`: its name does not start like `jest.config`. */
  lemma {:induction false} PackageJsonIsNoConfigFile(fs: FileSystem, dir: Path, exts: seq<string>)
    ensures PackageJsonPath(dir) !in ConfigFilesIn(fs, dir, exts)
  {
    if exts != [] {
      JoinInjective(dir, PackageJsonName, JestConfigBaseName + exts[0]);
      assert PackageJsonName[0] != (JestConfigBaseName + exts[0])[0];
      PackageJsonIsNoConfigFile(fs, dir, exts[1..]);
    }
  }

  /** The extension positions of two files the scan returns, in the same order. */
  lemma {:induction false} ConfigFilesInPositions(fs: FileSystem, dir: Path, exts: seq<string>, a: nat, b: nat)
    returns (ka: nat, kb: nat)
    requires a < b < |ConfigFilesIn(fs, dir, exts)|
    ensures ka < kb < |exts|
    ensures ConfigFilesIn(fs, dir, exts)[a] == ConfigFilePath(dir, exts[ka])
    ensures ConfigFilesIn(fs, dir, exts)[b] == ConfigFilePath(dir, exts[kb])
  {
    var head := if IsFile(fs, ConfigFilePath(dir, exts[0])) then [ConfigFilePath(dir, exts[0])] else [];
    var rest := ConfigFilesIn(fs, dir, exts[1..]);
    assert ConfigFilesIn(fs, dir, exts) == head + rest;
    if head == [] || a != 0 {
      var shift := if head == [] then 0 else 1;
      var a', b' := a - shift, b - shift;
      var ka', kb' := ConfigFilesInPositions(fs, dir, exts[1..], a', b');
      assert exts[1..][ka'] == exts[ka' + 1] && exts[1..][kb'] == exts[kb' + 1];
      ka, kb := ka' + 1, kb' + 1;
    } else {
      ConfigFilesInSound(fs, dir, exts[1..], rest[b - 1]);
      var kb' :| 0 <= kb' < |exts[1..]| && rest[b - 1] == ConfigFilePath(dir, exts[1..][kb']);
      assert exts[1..][kb'] == exts[kb' + 1];
      ka, kb := 0, kb' + 1;
    }
  }

  /** The scan keeps priority order: of two files it returns, the earlier
      one belongs to an extension earlier in the list. */
  lemma ConfigFilesInOrdered(fs: FileSystem, dir: Path, exts: seq<string>, a: nat, b: nat)
    requires a < b < |ConfigFilesIn(fs, dir, exts)|
    ensures exists ka, kb :: 0 <= ka < kb < |exts|
              && ConfigFilesIn(fs, dir, exts)[a] == ConfigFilePath(dir, exts[ka])
              && ConfigFilesIn(fs, dir, exts)[b] == ConfigFilePath(dir, exts[kb])
  {
    var ka, kb := ConfigFilesInPositions(fs, dir, exts, a, b);
  }

  /** With no extension listed twice, the scan returns no file twice. */
  lemma ConfigFilesInDistinct(fs: FileSystem, dir: Path, exts: seq<string>)
    requires Distinct(exts)
    ensures Distinct(ConfigFilesIn(fs, dir, exts))
  {
    var r := ConfigFilesIn(fs, dir, exts);
    forall a, b | 0 <= a < b < |r| ensures r[a] != r[b] {
      ConfigFilesInOrdered(fs, dir, exts, a, b);
      var ka, kb :| 0 <= ka < kb < |exts|
                    && r[a] == ConfigFilePath(dir, exts[ka]) && r[b] == ConfigFilePath(dir, exts[kb]);
      ConfigFilePathInjective(dir, exts[ka], exts[kb]);
    }
  }

  /** `package.json` in `dir` exists and its text has a `jest` key. */
  predicate HasJestKey(fs: FileSystem, dir: Path) {
    IsFile(fs, PackageJsonPath(dir)) && fs[PackageJsonPath(dir)].hasJestKey
  }

  /** The qualifying candidates of `dir`, best first: the config files in
      extension order, then `package.json` when it has a `jest` key. */
  function Candidates(fs: FileSystem, dir: Path, exts: seq<string>): (r: seq<Path>)
    ensures forall p :: p in r ==> IsFile(fs, p)
    ensures PackageJsonPath(dir) in r <==> HasJestKey(fs, dir)
    ensures PackageJsonPath(dir) in r ==> r[|r| - 1] == PackageJsonPath(dir)
  {
    PackageJsonIsNoConfigFile(fs, dir, exts);
    ConfigFilesIn(fs, dir, exts) + (if HasJestKey(fs, dir) then [PackageJsonPath(dir)] else [])
  }

  /** The candidates come in priority order: config files by extension
      position, then `package.json`; with no extension listed twice, no
      candidate is listed twice. */
  lemma CandidatesInPriorityOrder(fs: FileSystem, dir: Path, exts: seq<string>, a: nat, b: nat)
    requires a < b < |Candidates(fs, dir, exts)|
    ensures var c, n := Candidates(fs, dir, exts), |ConfigFilesIn(fs, dir, exts)|;
            if b < n then
              exists ka, kb :: 0 <= ka < kb < |exts|
                && c[a] == ConfigFilePath(dir, exts[ka]) && c[b] == ConfigFilePath(dir, exts[kb])
            else
              c[b] == PackageJsonPath(dir)
              && exists ka :: 0 <= ka < |exts| && c[a] == ConfigFilePath(dir, exts[ka])
  {
    var c, files := Candidates(fs, dir, exts), ConfigFilesIn(fs, dir, exts);
    assert c[..|files|] == files;
    if b < |files| {
      assert c[a] == files[a] && c[b] == files[b];
      ConfigFilesInOrdered(fs, dir, exts, a, b);
    } else {
      assert c[a] == files[a];
      ConfigFilesInSound(fs, dir, exts, files[a]);
    }
  }

  lemma CandidatesDistinct(fs: FileSystem, dir: Path, exts: seq<string>)
    requires Distinct(exts)
    ensures Distinct(Candidates(fs, dir, exts))
  {
    var c, files := Candidates(fs, dir, exts), ConfigFilesIn(fs, dir, exts);
    ConfigFilesInDistinct(fs, dir, exts);
    PackageJsonIsNoConfigFile(fs, dir, exts);
    assert c[..|files|] == files;
    forall a, b | 0 <= a < b < |c| ensures c[a] != c[b] {
      assert c[a] == files[a];
      if b < |files| {
        assert c[b] == files[b];
      }
    }
  }

  /** The search in one directory: the best candidate, or `package.json`
      whatever its text, or ConfigNotFound. */
  function SearchDirectory(fs: FileSystem, dir: Path, exts: seq<string>): (r: Result<Path, Error>)
    ensures r.Success? ==> IsFile(fs, r.value)
    ensures r.Failure? ==> r.error == ConfigNotFound(dir)
  {
    var candidates := Candidates(fs, dir, exts);
    if candidates != [] then Success(candidates[0])
    else if IsFile(fs, PackageJsonPath(dir)) then Success(PackageJsonPath(dir))
    else Failure(ConfigNotFound(dir))
  }

  /** One warning when `dir` holds two or more qualifying candidates, none otherwise. */
  function DirectoryWarnings(fs: FileSystem, dir: Path, exts: seq<string>): (w: seq<Warning>)
    ensures |w| <= 1
  {
    var candidates := Candidates(fs, dir, exts);
    if |candidates| > 1 then [MultipleConfigs(candidates)] else []
  }

  /** The outcome of resolving `input` against `rootDir` in `fs`. */
  function Resolution(fs: FileSystem, exts: seq<string>, input: Path, rootDir: Path): (o: Outcome)
    ensures o.result.Success? ==> IsFile(fs, o.result.value)
    ensures |o.warnings| <= 1
    ensures |o.warnings| == 1 ==>
              |o.warnings[0].candidates| >= 2 && o.result == Success(o.warnings[0].candidates[0])
  {
    var path := Resolve(input, rootDir);
    match Classify(fs, path)
    case ExistingFile => Outcome(Success(path), [])
    case Nothing => Outcome(Failure(RootDirectoryNotFound(path)), [])
    case ExistingDirectory => Outcome(SearchDirectory(fs, path, exts), DirectoryWarnings(fs, path, exts))
  }

  /** Where warnings go. The tests replace the console's warn with a recorder
      and clear it between calls; this sink is that recorder. */
  class WarningSink {
    var messages: seq<Warning>

    constructor ()
      ensures messages == []
    {
      messages := [];
    }

    method Warn(w: Warning)
      modifies this
      ensures messages == old(messages) + [w]
    {
      messages := messages + [w];
    }

    /** Forget the warnings recorded so far. */
    method Clear()
      modifies this
      ensures messages == []
    {
      messages := [];
    }
  }

  /** Probe `dir` for `jest.config<ext>`, one extension at a time, keeping
      the files that exist. */
  method ScanDirectory(fs: FileSystem, dir: Path, exts: seq<string>) returns (configFiles: seq<Path>)
    ensures configFiles == ConfigFilesIn(fs, dir, exts)
  {
    configFiles := [];
    var i := 0;
    while i < |exts|
      invariant 0 <= i <= |exts|
      invariant configFiles == ConfigFilesIn(fs, dir, exts[..i])
    {
      var candidate := ConfigFilePath(dir, exts[i]);
      assert exts[..i + 1] == exts[..i] + [exts[i]];
      ConfigFilesInConcat(fs, dir, exts[..i], [exts[i]]);
      ConfigFilesInSingle(fs, dir, exts[i]);
      if IsFile(fs, candidate) {
        configFiles := configFiles + [candidate];
      }
      i := i + 1;
    }
    assert exts[..i] == exts;
  }

  /** Scanning two extension lists one after the other finds what scanning
      their concatenation finds. */
  lemma {:induction false} ConfigFilesInConcat(fs: FileSystem, dir: Path, a: seq<string>, b: seq<string>)
    ensures ConfigFilesIn(fs, dir, a + b) == ConfigFilesIn(fs, dir, a) + ConfigFilesIn(fs, dir, b)
  {
    if a != [] {
      assert (a + b)[0] == a[0] && (a + b)[1..] == a[1..] + b;
      ConfigFilesInConcat(fs, dir, a[1..], b);
      var head := if IsFile(fs, ConfigFilePath(dir, a[0])) then [ConfigFilePath(dir, a[0])] else [];
      assert ConfigFilesIn(fs, dir, a) == head + ConfigFilesIn(fs, dir, a[1..]);
      assert ConfigFilesIn(fs, dir, a + b) == head + ConfigFilesIn(fs, dir, a[1..] + b);
    } else {
      assert a + b == b;
    }
  }

  /** Scanning a single extension finds its config file when it exists. */
  lemma ConfigFilesInSingle(fs: FileSystem, dir: Path, ext: string)
    ensures ConfigFilesIn(fs, dir, [ext])
              == if IsFile(fs, ConfigFilePath(dir, ext)) then [ConfigFilePath(dir, ext)] else []
  {
    assert [ext][1..] == [];
  }

  /** Resolve a configuration path, emitting at most one warning into `sink`. */
  method ResolveConfigPath(fs: FileSystem, exts: seq<string>, input: Path, rootDir: Path, sink: WarningSink)
    returns (r: Result<Path, Error>)
    modifies sink
    ensures r == Resolution(fs, exts, input, rootDir).result
    ensures sink.messages == old(sink.messages) + Resolution(fs, exts, input, rootDir).warnings
  {
    var absolutePath := if IsAbsolute(input) then input else Join(rootDir, input);
    if IsFile(fs, absolutePath) {
      return Success(absolutePath);
    }
    if absolutePath !in fs {
      return Failure(RootDirectoryNotFound(absolutePath));
    }
    var configFiles := ScanDirectory(fs, absolutePath, exts);
    var packageJson := PackageJsonPath(absolutePath);
    if IsFile(fs, packageJson) && fs[packageJson].hasJestKey {
      configFiles := configFiles + [packageJson];
    }
    assert configFiles == Candidates(fs, absolutePath, exts);
    if |configFiles| > 1 {
      sink.Warn(MultipleConfigs(configFiles));
    }
    if |configFiles| > 0 {
      return Success(configFiles[0]);
    }
    if IsFile(fs, packageJson) {
      return Success(packageJson);
    }
    return Failure(ConfigNotFound(absolutePath));
  }
}
