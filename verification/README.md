# Resolving jest's configuration path

This project models `resolveConfigPath(inputPath, rootDir)` from `jest-config`.
The resolver turns a user-supplied path into the one configuration file a
project uses. Its behaviour is fixed by its test suite
(`packages/jest-config/src/__tests__/resolveConfigPath.test.ts`). The model is
a reference model of that contract:

- **Normalisation.** An absolute input is used as given. A relative one is
  placed under `rootDir` (`Paths.Resolve`).
- **Classification.** The resulting path is an existing file, an existing
  directory, or nothing (`FileSystems.Classify`). An existing file is
  returned as it is. A missing path fails with `RootDirectoryNotFound`
  ("Can't find a root directory").
- **Directory search.** The resolver looks for `jest.config<ext>` once per
  extension of the priority list, in list order (`ConfigFilesIn`, and the
  loop `ScanDirectory`). It adds `package.json` when its text has a `jest`
  key (`Candidates`). The first candidate wins. With no candidate, a
  `package.json` is used whatever its text. With neither, the call fails
  with `ConfigNotFound` ("Could not find a config file based on provided
  values").
- **Warning.** Each call that finds two or more qualifying candidates emits
  exactly one `MultipleConfigs` warning. The warning lists the candidates
  best first.

The filesystem is a value: a map from paths to `File(hasJestKey)` or
`Directory`. The tests change the tree between calls, so each state is a new
map. The extension priority list is a parameter. The tests need it to have
no repeated entries (`Distinct`). The console warnings that the tests spy on
are a `WarningSink` object, and `mockClear` is `WarningSink.Clear`. The
imperative `ResolveConfigPath` is proved equal to the pure specification
`Resolution`. The test bodies are methods that call `ResolveConfigPath`
on their fixture trees. Their postconditions are the tests'
expectations.

The test helper `pickPairsWithSameOrder` is modelled in module `Pairs`. It
drives the test over every ordered pair of extensions.

Modules: `Paths` (paths.dfy), `FileSystems` (file_system.dfy),
`ConfigResolution` (config_resolution.dfy), `ConfigResolutionProperties`
(config_resolution_properties.dfy), `Pairs` (pairs.dfy),
`ResolveConfigPathTests` (resolve_config_path_tests.dfy).

## Model

| member | source | states |
|---|---|---|
| Paths.Resolve | packages/jest-config/src/__tests__/resolveConfigPath.test.ts:36-52 | an absolute input is kept unchanged; a relative one becomes `rootDir/input`; under an absolute root the result is always absolute |
| Paths.ResolveIdempotent | packages/jest-config/src/__tests__/resolveConfigPath.test.ts:36-52 | resolving an already resolved path changes nothing |
| FileSystems.Classify | packages/jest-config/src/__tests__/resolveConfigPath.test.ts:42-55 | a path is exactly one of existing file, existing directory, nothing |
| ConfigResolution.ConfigFilesIn | packages/jest-config/src/__tests__/resolveConfigPath.test.ts:96-109 | the scan returns only existing files, at most one per extension |
| ConfigResolution.ConfigFilesInSound | packages/jest-config/src/__tests__/resolveConfigPath.test.ts:96-109 | everything the scan returns is `jest.config<ext>` for a listed extension |
| ConfigResolution.ConfigFilesInComplete | packages/jest-config/src/__tests__/resolveConfigPath.test.ts:96-109 | the scan misses no existing `jest.config<ext>` of a listed extension |
| ConfigResolution.PackageJsonIsNoConfigFile | packages/jest-config/src/__tests__/resolveConfigPath.test.ts:111-132 | the scan never reports `package.json`, so it is a candidate only through its `jest` key |
| ConfigResolution.ConfigFilesInOrdered | packages/jest-config/src/__tests__/resolveConfigPath.test.ts:160-185 | of two files the scan returns, the earlier belongs to an extension earlier in the priority list |
| ConfigResolution.ConfigFilesInDistinct | packages/jest-config/src/__tests__/resolveConfigPath.test.ts:160-185 | with no extension listed twice, the scan returns no file twice |
| ConfigResolution.ConfigFilesInConcat | packages/jest-config/src/__tests__/resolveConfigPath.test.ts:166-180 | scanning two extension lists in turn finds what scanning their concatenation finds, in the same order |
| ConfigResolution.Candidates | packages/jest-config/src/__tests__/resolveConfigPath.test.ts:111-132 | every qualifying candidate exists; `package.json` is a candidate exactly when it has a `jest` key, and then it comes last |
| ConfigResolution.CandidatesInPriorityOrder | packages/jest-config/src/__tests__/resolveConfigPath.test.ts:111-132 | of two candidates, the earlier is a config file; the later is either a config file of a later extension or `package.json` |
| ConfigResolution.CandidatesDistinct | packages/jest-config/src/__tests__/resolveConfigPath.test.ts:111-132 | with no extension listed twice, no candidate is listed twice |
| ConfigResolution.SearchDirectory | packages/jest-config/src/__tests__/resolveConfigPath.test.ts:69-109 | a directory search returns an existing file, or fails with ConfigNotFound naming that directory |
| ConfigResolution.DirectoryWarnings | packages/jest-config/src/__tests__/resolveConfigPath.test.ts:111-132 | a directory search emits at most one warning |
| ConfigResolution.Resolution | packages/jest-config/src/__tests__/resolveConfigPath.test.ts:32-142 | a successful resolution names an existing file; at most one warning per call; a warning lists two or more candidates, and its first is the result |
| ConfigResolution.WarningSink.constructor | packages/jest-config/src/__tests__/resolveConfigPath.test.ts:19-27 | a new warning recorder holds nothing |
| ConfigResolution.WarningSink.Warn | packages/jest-config/src/__tests__/resolveConfigPath.test.ts:19-27 | a warning is appended to what was recorded, nothing else changes |
| ConfigResolution.WarningSink.Clear | packages/jest-config/src/__tests__/resolveConfigPath.test.ts:84-84 | clearing the recorder forgets every recorded warning |
| ConfigResolution.ScanDirectory | packages/jest-config/src/__tests__/resolveConfigPath.test.ts:166-180 | probing the extensions one at a time finds exactly the config files that ConfigFilesIn names, in extension order |
| ConfigResolution.ResolveConfigPath | packages/jest-config/src/__tests__/resolveConfigPath.test.ts:32-187 | the imperative resolver returns the result of Resolution and appends exactly Resolution's warnings to the sink |
| ConfigResolutionProperties.FirstConfigIsEarliest | packages/jest-config/src/__tests__/resolveConfigPath.test.ts:160-185 | the first config file found has the earliest extension present in the priority list |
| ConfigResolutionProperties.OnlyConfigFile | packages/jest-config/src/__tests__/resolveConfigPath.test.ts:96-109 | with exactly one extension present, the scan finds that one file |
| ConfigResolutionProperties.TwoConfigFiles | packages/jest-config/src/__tests__/resolveConfigPath.test.ts:166-174 | with exactly two extensions present, the scan finds both, the earlier extension first |
| ConfigResolutionProperties.ExistingFileResolvesToItself | packages/jest-config/src/__tests__/resolveConfigPath.test.ts:35-52 | an existing file, absolute or relative to `rootDir`, resolves to its absolute form with no warning, whatever else exists |
| ConfigResolutionProperties.RelativeAndAbsoluteAgree | packages/jest-config/src/__tests__/resolveConfigPath.test.ts:72-132 | a relative input and its absolute form give the same result and the same warnings |
| ConfigResolutionProperties.MissingPathIsRootDirectoryNotFound | packages/jest-config/src/__tests__/resolveConfigPath.test.ts:45-55 | RootDirectoryNotFound happens exactly when the path exists neither as file nor as directory, and then with no warning |
| ConfigResolutionProperties.ConfigFilesInEmpty | packages/jest-config/src/__tests__/resolveConfigPath.test.ts:69-80 | the scan finds nothing exactly when no listed extension has a config file |
| ConfigResolutionProperties.ConfigNotFoundExactlyWhenNoCandidate | packages/jest-config/src/__tests__/resolveConfigPath.test.ts:69-80 | ConfigNotFound happens exactly for a directory with no `jest.config<ext>` and no `package.json`, and then with no warning |
| ConfigResolutionProperties.PackageJsonIsFallback | packages/jest-config/src/__tests__/resolveConfigPath.test.ts:82-94 | with no config file, `package.json` is the result whatever its text, with no warning |
| ConfigResolutionProperties.EarliestConfigWins | packages/jest-config/src/__tests__/resolveConfigPath.test.ts:96-109 | the config file with the earliest extension present wins, over later extensions and over `package.json` |
| ConfigResolutionProperties.WarnsOnceExactlyWhenSeveralCandidates | packages/jest-config/src/__tests__/resolveConfigPath.test.ts:111-132 | one warning listing the candidates exactly when a directory has two or more qualifying candidates (config files, plus `package.json` only with a `jest` key); none otherwise |
| ConfigResolutionProperties.WarningNamesEachCandidateOnce | packages/jest-config/src/__tests__/resolveConfigPath.test.ts:111-132 | with no extension listed twice, a warning lists exactly the directory's candidates, none of them twice |
| ConfigResolutionProperties.ConfigBesidePlainPackageJsonIsSilent | packages/jest-config/src/__tests__/resolveConfigPath.test.ts:96-109 | one config file beside a `package.json` without `jest` key wins, with no warning |
| ConfigResolutionProperties.ConfigBesideJestKeyPackageJsonWarnsOnce | packages/jest-config/src/__tests__/resolveConfigPath.test.ts:111-132 | one config file beside a `package.json` with a `jest` key wins, with one warning naming both, the winner first |
| ConfigResolutionProperties.EarlierOfTwoConfigsWinsWithOneWarning | packages/jest-config/src/__tests__/resolveConfigPath.test.ts:160-185 | of two config files the earlier extension wins, with one warning naming both, the winner first |
| Pairs.PickPairsWithSameOrder | packages/jest-config/src/__tests__/resolveConfigPath.test.ts:144-150 | for each position i in order, a[i] paired with every later element, the rows concatenated; its length is the number Triangle(n) of position pairs i < j |
| Pairs.PickPairsLength | packages/jest-config/src/__tests__/resolveConfigPath.test.ts:144-150 | n elements give n·(n−1)/2 pairs |
| Pairs.PickPairsAt | packages/jest-config/src/__tests__/resolveConfigPath.test.ts:144-150 | for every i < j, the pair (a[i], a[j]) is in the result, at position PairIndex(n, i, j) |
| Pairs.PairIndexIncreasing | packages/jest-config/src/__tests__/resolveConfigPath.test.ts:144-150 | pairs appear ordered by first index, then by second index |
| Pairs.PickPairsOnlyOrderedPairs | packages/jest-config/src/__tests__/resolveConfigPath.test.ts:144-150 | every element of the result is (a[i], a[j]) for some i < j |
| Pairs.PickPairsOfThree | packages/jest-config/src/__tests__/resolveConfigPath.test.ts:152-158 | [1, 2, 3] gives [1, 2], [1, 3], [2, 3] |
| ResolveConfigPathTests.MissingPathsAreNoRootDirectory | packages/jest-config/src/__tests__/resolveConfigPath.test.ts:45-55 | beside an existing `a/b/c/my_config<ext>`, `/does_not_exist` and `does_not_exist` fail with RootDirectoryNotFound, with no warning |
| ResolveConfigPathTests.FilePathTest | packages/jest-config/src/__tests__/resolveConfigPath.test.ts:35-56 | a file given absolutely or relatively resolves to its absolute path; `/does_not_exist` and `does_not_exist` fail with RootDirectoryNotFound |
| ResolveConfigPathTests.UnrelatedFileIsNoConfig | packages/jest-config/src/__tests__/resolveConfigPath.test.ts:69-80 | `a/b/c` holding only `some_random_file<ext>` fails with ConfigNotFound |
| ResolveConfigPathTests.EmptyPackageJsonIsUsed | packages/jest-config/src/__tests__/resolveConfigPath.test.ts:82-94 | an empty `package.json` is the result, with no warning |
| ResolveConfigPathTests.ConfigFileWinsSilently | packages/jest-config/src/__tests__/resolveConfigPath.test.ts:96-109 | `jest.config<ext>` beside the empty `package.json` is the result, with no warning |
| ResolveConfigPathTests.ConfigFileWinsWithWarning | packages/jest-config/src/__tests__/resolveConfigPath.test.ts:111-132 | once `package.json` has a `jest` key, `jest.config<ext>` is still the result, with one warning naming both |
| ResolveConfigPathTests.MissingSubdirectoryIsNoRootDirectory | packages/jest-config/src/__tests__/resolveConfigPath.test.ts:134-139 | a non-existent subdirectory of `a/b/c` fails with RootDirectoryNotFound |
| ResolveConfigPathTests.DirectoryPathTest | packages/jest-config/src/__tests__/resolveConfigPath.test.ts:58-140 | the directory scenario's nine calls give the tests' results; the recorder holds nothing, nothing, one warning, one warning at the four points where the tests inspect it |
| ResolveConfigPathTests.MultipleConfigsTest | packages/jest-config/src/__tests__/resolveConfigPath.test.ts:160-185 | for every pair taken by PickPairsWithSameOrder, the earlier extension's file is the result, with exactly one warning naming both |

## Left out

- The implementation file `packages/jest-config/src/resolveConfigPath.ts` and the constant list `JEST_CONFIG_EXT_ORDER` are not part of this model. The model follows the contract the tests fix, and the extension list is a parameter with no repeated entries.
- Searching parent directories when the named directory has no candidate: no test places a configuration above the named directory, so the search stops at that directory.
- Path normalisation (`..`, `.`, repeated or trailing separators, Windows drive letters): `Join` is plain concatenation with one `/`. The input `a/b/c/j/x/b/m/` at line 136 is modelled without its trailing separator.
- JSON parsing of `package.json`: a file records only whether its text has a top-level `jest` key. Empty or unparsable text counts as "no key", as at line 82. A read or parse failure is never an error in this model.
- Exact warning and error message texts: the tests fix only the message patterns (lines 15-17), and the model keeps only their kinds. Each error carries the absolute path it concerns, and the warning carries the candidate paths. Carrying the path is the model's own choice, not something the tests check. Because the error names the resolved absolute path, `RelativeAndAbsoluteAgree` is an equality of whole outcomes, errors included.
- Real filesystem I/O (`writeFiles`, `cleanup`, `tmpdir`): the test directory is a parameter `root` and each state of the tree is a map value. The ancestors of the test directory are not in the fixture trees.
- The test harness (`describe.each`, `beforeEach`, `afterEach`, the console spy): `describe.each` becomes a method parameter, and the spy becomes `WarningSink`.
- `packages/expect/src/types.ts`: type declarations for matchers only, with no behaviour to model.
