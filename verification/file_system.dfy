/** An abstract, read-only view of the filesystem at the moment of one
    resolution call. The tests change the directory tree between calls; each
    such change is a new FileSystem value. */
module FileSystems {
  import opened Paths

  /** What exists at a path. A regular file records only whether its text
      parses as a JSON object with a top-level `jest` key; that flag is
      consulted for `package.json` only, and empty or unparsable text counts
      as "no key". */
  datatype Entry = File(hasJestKey: bool) | Directory

  /** Every existing path, with what it is. A path that is not a key does not exist. */
  type FileSystem = map<Path, Entry>

  /** The three outcomes of classifying a path. */
  datatype PathKind = ExistingFile | ExistingDirectory | Nothing

  predicate IsFile(fs: FileSystem, p: Path) {
    p in fs && fs[p].File?
  }

  predicate IsDirectory(fs: FileSystem, p: Path) {
    p in fs && fs[p].Directory?
  }

  /** A path is an existing file, an existing directory, or nothing. */
  function Classify(fs: FileSystem, p: Path): (k: PathKind)
    ensures k == ExistingFile <==> IsFile(fs, p)
    ensures k == ExistingDirectory <==> IsDirectory(fs, p)
    ensures k == Nothing <==> p !in fs
  {
    if p !in fs then Nothing
    else if fs[p].File? then ExistingFile
    else ExistingDirectory
  }
}
