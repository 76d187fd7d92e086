/** The "# File Contents" part: the callback main hands to filepath.Walk,
    the walk itself, and the blocks the callback writes for a file. The
    output is a sequence of chunks: text written with Fprint, the raw bytes
    dumpText copies, and the rows dumpHex hands to hex.Dump one read at a
    time. The imperative writer in Overview is proved against these
    functions. */
module Content {
  import opened Utf8
  import opened Paths
  import opened Filters
  import opened Sniff
  import opened Lang
  import opened FileSystem

  datatype Chunk =
    | Text(text: string)
    | Raw(bytes: seq<byte>)
    | Hex(row: seq<byte>)   // the bytes of one read, formatted by one hex.Dump call

  /** What the callback returns: nil, filepath.SkipDir, or an error that
      stops the walk. */
  datatype Signal = Proceed | SkipDir | Abort

  /** The chunks a call writes and the signal it returns. */
  datatype Step = Step(out: seq<Chunk>, signal: Signal)

  /** Size of the buffer dumpHex reads into. */
  const RowSize: nat := 16

  const Placeholder: string := "[skipped binary file]\n"
  const Trailer: string := "-----\n"
  const CloseFence: string := "```\n"

  /** The line before a file's bytes, naming it by its relative path. */
  function Header(rel: string): string {
    "\n-----\nFile Path: " + rel + "\n\n"
  }

  function OpenFence(lang: string): string {
    "```" + lang + "\n"
  }

  /** The rows of dumpHex: the file read 16 bytes at a time, one row per
      read that returned bytes. */
  function HexChunks(data: seq<byte>): seq<Chunk>
    decreases |data|
  {
    if data == [] then []
    else if |data| <= RowSize then [Hex(data)]
    else [Hex(data[..RowSize])] + HexChunks(data[RowSize..])
  }

  /** The bytes of the hex rows among some chunks, in order. */
  function HexBytes(cs: seq<Chunk>): seq<byte> {
    if cs == [] then []
    else (if cs[0].Hex? then cs[0].row else []) + HexBytes(cs[1..])
  }

  /** A row of dumpHex: a read that returned between 1 and 16 bytes. */
  predicate IsRow(c: Chunk) {
    c.Hex? && 1 <= |c.row| <= RowSize
  }

  /** dumpHex loses and reorders nothing: its rows hold the file's bytes in
      order, each row at most 16 bytes and never empty, every row but the
      last exactly 16, and there are |data| / 16 rows rounded up. */
  lemma {:induction false} HexChunksSplit(data: seq<byte>)
    ensures HexBytes(HexChunks(data)) == data
    ensures forall k :: 0 <= k < |HexChunks(data)| ==> IsRow(HexChunks(data)[k])
    ensures forall k :: 0 <= k < |HexChunks(data)| - 1 ==>
      HexChunks(data)[k].Hex? && |HexChunks(data)[k].row| == RowSize
    ensures |HexChunks(data)| == (|data| + RowSize - 1) / RowSize
    decreases |data|
  {
    var cs := HexChunks(data);
    if data == [] {
    } else if |data| <= RowSize {
      assert HexBytes(cs) == data + [];
    } else {
      var rest := HexChunks(data[RowSize..]);
      HexChunksSplit(data[RowSize..]);
      assert cs[1..] == rest;
      assert HexBytes(cs) == data[..RowSize] + HexBytes(rest);
      assert data[..RowSize] + data[RowSize..] == data;
      assert forall k :: 1 <= k < |cs| ==> cs[k] == rest[k - 1];
    }
  }

  /** The body of a file's block, after the header: for a binary file the
      hex rows with --include-binaries and the placeholder line without; for
      a text file the raw bytes, fenced when the extension has a language.
      A copy that fails stops the walk with what was written so far (the
      opening fence, when there is one). */
  function FileBody(data: seq<byte>, access: Access, lang: string, includeBinaries: bool): (s: Step)
    ensures s.signal != SkipDir
  {
    if IsBinary(data) then
      if !includeBinaries then Step([Text(Placeholder)], Proceed)
      else if access == FailsWhileCopying then Step([], Abort)
      else Step(HexChunks(data), Proceed)
    else
      var fenced := lang != "";
      var open := if fenced then [Text(OpenFence(lang))] else [];
      if access == FailsWhileCopying then Step(open, Abort)
      else Step(open + [Raw(data)] + (if fenced then [Text(CloseFence)] else []), Proceed)
  }

  /** What the callback does for an admitted file (main.go's block from
      isBinary on): nothing when the file cannot be opened or read, and
      otherwise the header line with the relative path, the body and,
      unless the copy failed, the closing rule. */
  function FileBlock(n: Node, rel: string, includeBinaries: bool): (s: Step)
    requires n.File?
    ensures s.signal != SkipDir
  {
    if n.access == Unopenable then Step([], Proceed)
    else
      var body := FileBody(n.data, n.access, DetectLang(n.name), includeBinaries);
      Step([Text(Header(rel))] + body.out + (if body.signal == Abort then [] else [Text(Trailer)]),
           body.signal)
  }

  /** The callback for the entry n at the absolute path; for a directory
      the walk has already tried to list it, and a failed listing is the
      error handed to the callback. */
  function Visit(n: Node, path: Path, cfg: Config): (s: Step)
    ensures n.Directory? ==> s.out == []
    ensures s.signal == SkipDir ==> n.Directory?
    ensures n.Directory? && !n.listable ==> s.signal == Abort
  {
    if n.Directory? && !n.listable then Step([], Abort)
    else if path == cfg.output then Step([], Proceed)
    else if !cfg.includeAll && ShouldIgnore(n.name) then
      Step([], if n.Directory? then SkipDir else Proceed)
    else if ShouldExcludeByGlob(cfg.excludeGlobs, cfg.absRoot, path) then
      Step([], if n.Directory? then SkipDir else Proceed)
    else if n.File? && ShouldIncludeByGlob(cfg.includeGlobs, cfg.absRoot, path) then
      FileBlock(n, RelString(Rel(cfg.absRoot, path)), cfg.includeBinaries)
    else Step([], Proceed)
  }

  /** filepath.Walk's walk for one entry: call back, and for a directory
      the callback let through, walk its entries. */
  function WalkNode(n: Node, path: Path, cfg: Config): (s: Step)
    decreases n, 1
    ensures s.signal == SkipDir ==> n.Directory?
  {
    var v := Visit(n, path, cfg);
    if n.File? || v.signal != Proceed then v
    else
      var rest := WalkFrom(n.children, 0, path, cfg);
      Step(v.out + rest.out, rest.signal)
  }

  /** walk's loop over a directory's entries from index i on: an error
      stops it and is passed up; SkipDir from a directory only skips that
      directory, from a file it skips the rest of this one. */
  function WalkFrom(entries: seq<Node>, i: nat, dir: Path, cfg: Config): (s: Step)
    requires i <= |entries|
    ensures s.signal != SkipDir
    decreases entries, |entries| - i
  {
    if i == |entries| then Step([], Proceed)
    else
      var r := WalkNode(entries[i], dir + [entries[i].name], cfg);
      if r.signal == Abort || (r.signal == SkipDir && entries[i].File?) then r
      else
        var rest := WalkFrom(entries, i + 1, dir, cfg);
        Step(r.out + rest.out, rest.signal)
  }

  /** One turn of walk's loop. */
  lemma WalkFromStep(entries: seq<Node>, i: nat, dir: Path, cfg: Config)
    requires i < |entries|
    ensures var r := WalkNode(entries[i], dir + [entries[i].name], cfg);
      WalkFrom(entries, i, dir, cfg) ==
        if r.signal == Abort || (r.signal == SkipDir && entries[i].File?) then r
        else Step(r.out + WalkFrom(entries, i + 1, dir, cfg).out, WalkFrom(entries, i + 1, dir, cfg).signal)
  {
  }

  /** filepath.Walk from the root: SkipDir for the root means success. */
  function Walk(root: Node, cfg: Config): (s: Step)
    ensures s.signal != SkipDir
  {
    var r := WalkNode(root, cfg.absRoot, cfg);
    Step(r.out, if r.signal == SkipDir then Proceed else r.signal)
  }

  // ----- properties of one block -----

  /** A binary file with --include-binaries: header, hex rows holding
      exactly the file's bytes, closing rule. */
  lemma BinaryBlock(n: Node, rel: string)
    requires n.File? && n.access == Readable && IsBinary(n.data)
    ensures var s := FileBlock(n, rel, true);
      s.signal == Proceed &&
      s.out == [Text(Header(rel))] + HexChunks(n.data) + [Text(Trailer)] &&
      HexBytes(s.out) == n.data
  {
    HexChunksSplit(n.data);
    HexBytesConcat([Text(Header(rel))], HexChunks(n.data));
    HexBytesConcat([Text(Header(rel))] + HexChunks(n.data), [Text(Trailer)]);
    assert HexBytes([Text(Trailer)]) == [];
  }

  /** A binary file without --include-binaries: header, placeholder,
      closing rule, and none of the file's bytes. */
  lemma SkippedBinaryBlock(n: Node, rel: string)
    requires n.File? && n.access != Unopenable && IsBinary(n.data)
    ensures FileBlock(n, rel, false) ==
      Step([Text(Header(rel)), Text(Placeholder), Text(Trailer)], Proceed)
  {
  }

  /** A text file: the copy is fenced exactly when the extension has a
      language, and it holds the file's bytes unchanged. */
  lemma TextBlock(n: Node, rel: string, includeBinaries: bool)
    requires n.File? && n.access == Readable && !IsBinary(n.data)
    ensures var lang := DetectLang(n.name);
      FileBlock(n, rel, includeBinaries) ==
        Step([Text(Header(rel))] +
             (if lang != "" then [Text(OpenFence(lang)), Raw(n.data), Text(CloseFence)] else [Raw(n.data)]) +
             [Text(Trailer)], Proceed)
  {
  }

  /** A text file that fails while being copied: the walk stops after the
      header and, for a fenced language, the opening fence; no closing
      rule is written. */
  lemma FailedCopy(n: Node, rel: string, includeBinaries: bool)
    requires n.File? && n.access == FailsWhileCopying && !IsBinary(n.data)
    ensures var lang := DetectLang(n.name);
      FileBlock(n, rel, includeBinaries) ==
        Step([Text(Header(rel))] + (if lang != "" then [Text(OpenFence(lang))] else []), Abort)
  {
  }

  /** The block's header names the file by its path relative to the root,
      and the block ends with the closing rule exactly when the walk goes
      on. */
  lemma BlockFrame(n: Node, rel: string, includeBinaries: bool)
    requires n.File? && n.access != Unopenable
    ensures var s := FileBlock(n, rel, includeBinaries);
      s.out != [] && s.out[0] == Text(Header(rel)) &&
      (s.signal == Proceed <==> s.out[|s.out| - 1] == Text(Trailer)) &&
      (s.signal == Abort <==> n.access == FailsWhileCopying && (includeBinaries || !IsBinary(n.data)))
  {
    var body := FileBody(n.data, n.access, DetectLang(n.name), includeBinaries);
    var s := FileBlock(n, rel, includeBinaries);
    if body.signal == Abort {
      assert s.out == [Text(Header(rel))] + body.out;
      var last := s.out[|s.out| - 1];
      assert last == Text(Header(rel)) || last == Text(OpenFence(DetectLang(n.name)));
      assert Header(rel)[0] == '\n' && OpenFence(DetectLang(n.name))[0] == '`' && Trailer[0] == '-';
    }
  }

  lemma {:induction false} HexBytesConcat(a: seq<Chunk>, b: seq<Chunk>)
    ensures HexBytes(a + b) == HexBytes(a) + HexBytes(b)
  {
    if a == [] {
      assert a + b == b;
    } else {
      assert (a + b)[1..] == a[1..] + b;
      HexBytesConcat(a[1..], b);
    }
  }

  // ----- properties of the callback -----

  /** The output file itself is never copied into the overview, and the
      walk does go on past it (a directory at that path is entered). */
  lemma OutputFileSkipped(n: Node, cfg: Config)
    requires !(n.Directory? && !n.listable)
    ensures Visit(n, cfg.output, cfg) == Step([], Proceed)
  {
  }

  /** Without --all, an ignored directory is pruned and an ignored file is
      passed over; with --all the ignore list plays no part. */
  lemma IgnoredEntries(n: Node, path: Path, cfg: Config)
    requires !(n.Directory? && !n.listable) && path != cfg.output
    requires ShouldIgnore(n.name)
    ensures !cfg.includeAll ==> Visit(n, path, cfg) == Step([], if n.Directory? then SkipDir else Proceed)
    ensures cfg.includeAll ==>
      (Visit(n, path, cfg).signal == SkipDir <==>
       n.Directory? && ShouldExcludeByGlob(cfg.excludeGlobs, cfg.absRoot, path))
  {
  }

  /** A file gets a block exactly when the callback gets past the output
      check, the ignore list and the exclude patterns, an include pattern
      (if any) admits it, and it can be opened. */
  lemma FileEmitsIff(n: Node, path: Path, cfg: Config)
    requires n.File?
    ensures Visit(n, path, cfg).out != [] <==>
      path != cfg.output &&
      (cfg.includeAll || !ShouldIgnore(n.name)) &&
      !ShouldExcludeByGlob(cfg.excludeGlobs, cfg.absRoot, path) &&
      ShouldIncludeByGlob(cfg.includeGlobs, cfg.absRoot, path) &&
      n.access != Unopenable
  {
  }

  /** The callback returns SkipDir for exactly the listable directories it
      gets past the output check and that an ignore name or exclude pattern
      rejects. */
  lemma PrunedIff(n: Node, path: Path, cfg: Config)
    requires n.Directory?
    ensures Visit(n, path, cfg).signal == SkipDir <==>
      n.listable && path != cfg.output &&
      ((!cfg.includeAll && ShouldIgnore(n.name)) || ShouldExcludeByGlob(cfg.excludeGlobs, cfg.absRoot, path))
  {
  }

  /** The walk stops exactly at directories it cannot list and at files
      whose copy fails. */
  lemma AbortIff(n: Node, path: Path, cfg: Config)
    ensures Visit(n, path, cfg).signal == Abort <==>
      (n.Directory? && !n.listable) ||
      (n.File? && n.access == FailsWhileCopying && Visit(n, path, cfg).out != [] &&
       (cfg.includeBinaries || !IsBinary(n.data)))
  {
    if n.File? && Visit(n, path, cfg).out != [] {
      BlockFrame(n, RelString(Rel(cfg.absRoot, path)), cfg.includeBinaries);
    }
  }

  // ----- the walk on examples -----

  /** The root is called back with the relative path ".", which a lone '*'
      matches: the exclude pattern "*" prunes the whole walk, and the walk
      still succeeds. */
  lemma StarExcludesEverything(root: Node, cfg: Config)
    requires root.Directory? && root.listable && cfg.absRoot != cfg.output
    requires cfg.includeAll || !ShouldIgnore(root.name)
    requires cfg.excludeGlobs == ["*"]
    ensures Walk(root, cfg) == Step([], Proceed)
  {
    RelBelow(cfg.absRoot, []);
    assert cfg.absRoot + [] == cfg.absRoot;
    Glob.StarMatchesOneSegment(".");
  }

  /** The default configuration for a root /home/proj: the output file
      proj_OVERVIEW.md in the root, no flags, no patterns. */
  function DefaultConfig(): Config {
    Config(["home", "proj"], ["home", "proj", "proj_OVERVIEW.md"], false, false, [], [])
  }

  /** A small project: ".git" is pruned without being entered and main.go
      is copied in a Go fence. */
  lemma WalkExample(data: seq<byte>)
    requires data == [0x68, 0x69]
    ensures var root := Directory("proj", [Directory(".git", [File("HEAD", data, Readable)], true),
                                           File("main.go", data, Readable)], true);
      Walk(root, DefaultConfig()) ==
        Step([Text(Header("main.go")), Text(OpenFence("go")), Raw(data), Text(CloseFence), Text(Trailer)], Proceed)
  {
    var cfg := DefaultConfig();
    var git := Directory(".git", [File("HEAD", data, Readable)], true);
    var main := File("main.go", data, Readable);
    var root := Directory("proj", [git, main], true);
    var block := [Text(Header("main.go")), Text(OpenFence("go")), Raw(data), Text(CloseFence), Text(Trailer)];
    ExampleRoot(root);
    ExampleGit(git);
    ExampleMain(data);
    assert WalkNode(main, cfg.absRoot + ["main.go"], cfg) == Step(block, Proceed);
    assert WalkFrom(root.children, 2, cfg.absRoot, cfg) == Step([], Proceed);
    assert WalkFrom(root.children, 1, cfg.absRoot, cfg) == Step(block + [], Proceed);
    assert WalkFrom(root.children, 0, cfg.absRoot, cfg) == Step([] + (block + []), Proceed);
  }

  lemma ExampleRoot(root: Node)
    requires root.Directory? && root.name == "proj" && root.listable
    ensures Visit(root, DefaultConfig().absRoot, DefaultConfig()) == Step([], Proceed)
  {
    NotDotted("proj");
  }

  lemma ExampleGit(git: Node)
    requires git.Directory? && git.name == ".git" && git.listable
    ensures WalkNode(git, DefaultConfig().absRoot + [".git"], DefaultConfig()) == Step([], SkipDir)
  {
    var path := DefaultConfig().absRoot + [".git"];
    assert path[2] == ".git" && DefaultConfig().output[2] == "proj_OVERVIEW.md";
    assert ShouldIgnore(".git") by {
      IgnoredExamples();
    }
    assert Visit(git, path, DefaultConfig()) == Step([], SkipDir);
  }

  lemma ExampleMain(data: seq<byte>)
    requires data == [0x68, 0x69]
    ensures Visit(File("main.go", data, Readable), DefaultConfig().absRoot + ["main.go"], DefaultConfig()) ==
      Step([Text(Header("main.go")), Text(OpenFence("go")), Raw(data), Text(CloseFence), Text(Trailer)], Proceed)
  {
    var main := File("main.go", data, Readable);
    NotDotted("main.go");
    MainGoRel();
    SniffExamples();
    MainGoLabel();
    TextBlock(main, "main.go", false);
  }

  lemma MainGoRel()
    ensures RelString(Rel(DefaultConfig().absRoot, DefaultConfig().absRoot + ["main.go"])) == "main.go"
  {
    RelBelow(DefaultConfig().absRoot, ["main.go"]);
  }

  lemma MainGoLabel()
    ensures DetectLang("main.go") == "go"
  {
    assert "main" + "." + "go" == "main.go";
    assert Lower(".go") == ".go" && LangOf(".go") == "go";
    LabelOf("main", "go", ".go", "go");
  }

  /** The same project with a binary main.go: a placeholder by default, the
      bytes as one hex row with --include-binaries. */
  lemma BinaryExamples(data: seq<byte>)
    requires data == [0x00, 0xFF, 0x10]
    ensures FileBlock(File("blob.bin", data, Readable), "blob.bin", false) ==
      Step([Text(Header("blob.bin")), Text(Placeholder), Text(Trailer)], Proceed)
    ensures FileBlock(File("blob.bin", data, Readable), "blob.bin", true) ==
      Step([Text(Header("blob.bin")), Hex(data), Text(Trailer)], Proceed)
  {
    SniffExamples();
    assert HexChunks(data) == [Hex(data)];
  }
}
