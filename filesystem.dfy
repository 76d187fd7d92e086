/** The file system as the program sees it: a tree of entries whose
    directories list their children in the order the listing returns them
    (os.ReadDir and filepath.Walk both return names sorted), and the
    resolved configuration that main hands to the tree renderer and the
    content walk. */
module FileSystem {
  import opened Utf8
  import opened Paths

  /** What reading a file's bytes does: succeed, fail to open (isBinary
      reports an error), or fail part-way through the copy into the output
      (dumpText or dumpHex reports an error). */
  datatype Access = Readable | Unopenable | FailsWhileCopying

  datatype Node =
    | File(name: string, data: seq<byte>, access: Access)
    | Directory(name: string, children: seq<Node>, listable: bool)

  /** The resolved run: the root and the output file as clean absolute
      paths, the --all and --include-binaries flags, and the pattern lists
      of --include and --exclude. */
  datatype Config = Config(
    absRoot: Path,
    output: Path,
    includeAll: bool,
    includeBinaries: bool,
    includeGlobs: seq<string>,
    excludeGlobs: seq<string>)
}
