/** main's second half as it runs: a writer that appends to the overview
    file and keeps the directory and file counters printTree bumps through
    pointers. Each method is proved to write what the functions of
    TreeRender and Content describe, and Document says what a whole run
    writes. */
module Overview {
  import opened Utf8
  import opened Paths
  import opened Filters
  import opened Sniff
  import opened Lang
  import opened FileSystem
  import opened Content
  import TreeRender
  import Selection
  import Shown
  import Decimal

  /** Text written with Fprintln, one chunk per line. */
  function Lines(ls: seq<string>): seq<Chunk> {
    if ls == [] then [] else [Text(ls[0] + "\n")] + Lines(ls[1..])
  }

  lemma {:induction false} LinesConcat(a: seq<string>, b: seq<string>)
    ensures Lines(a + b) == Lines(a) + Lines(b)
  {
    if a == [] {
      assert a + b == b;
    } else {
      assert (a + b)[0] == a[0] && (a + b)[1..] == a[1..] + b;
      LinesConcat(a[1..], b);
    }
  }

  const TreeHeading: string := "# Directory Structure\n"
  const RootMarker: string := ".\n"
  const ContentsHeading: string := "# File Contents\n"

  /** The line after the tree. */
  function Summary(dirs: nat, files: nat): string {
    "\n" + Decimal.Show(dirs) + " directories, " + Decimal.Show(files) + " files\n"
  }

  /** What a run writes to the overview file and whether it succeeds: the
      root must be a directory that can be listed, and the walk must not
      fail. */
  datatype Outcome = Outcome(out: seq<Chunk>, ok: bool)

  /** The directory tree section: the heading and the root marker, and,
      when the root can be listed, a line per shown entry and the summary
      with the counts. */
  function TreeSection(root: Node, cfg: Config): Outcome {
    var head := [Text(TreeHeading), Text(RootMarker)];
    if !(root.Directory? && root.listable) then Outcome(head, false)
    else
      var tree := TreeRender.RenderFrom(root.children, 0, cfg.absRoot, "", cfg);
      Outcome(head + Lines(tree.lines) + [Text(Summary(tree.dirs, tree.files))], true)
  }

  /** The directory and file counts of the summary line; both stay zero
      when the root cannot be listed. */
  function TreeCounts(root: Node, cfg: Config): (nat, nat) {
    if !(root.Directory? && root.listable) then (0, 0)
    else
      var tree := TreeRender.RenderFrom(root.children, 0, cfg.absRoot, "", cfg);
      (tree.dirs, tree.files)
  }

  /** A whole run: the tree section, then, if the root could be listed,
      the contents heading and what the walk writes. */
  function Document(root: Node, cfg: Config): Outcome {
    var t := TreeSection(root, cfg);
    if !t.ok then t
    else
      var walk := Walk(root, cfg);
      Outcome(t.out + [Text(ContentsHeading)] + walk.out, walk.signal != Abort)
  }

  /** After the tree, the file contents section holds the callback's output
      for each entry the walk reaches, in pre-order, up to the first
      failure, and the run fails exactly when that sequence does. */
  lemma DocumentContents(root: Node, cfg: Config)
    requires root.Directory? && root.listable
    ensures var es := Selection.Reached(root, cfg.absRoot, cfg);
      Document(root, cfg) ==
        Outcome(TreeSection(root, cfg).out + [Text(ContentsHeading)] + Selection.Sequence(es, cfg).out,
                Selection.Sequence(es, cfg).signal != Abort)
  {
    Selection.WalkIsSequence(root, cfg);
  }

  /** A run succeeds exactly when the root can be listed and no reached
      entry is a directory that cannot be listed or a file whose copy
      fails. */
  lemma DocumentOkIff(root: Node, cfg: Config)
    ensures var es := Selection.Reached(root, cfg.absRoot, cfg);
      Document(root, cfg).ok <==>
        root.Directory? && root.listable &&
        forall k :: 0 <= k < |es| ==> Visit(es[k].node, es[k].path, cfg).signal != Abort
  {
    Selection.WalkAbortIff(root, cfg);
  }

  /** Whatever happens, the overview starts with the tree section. */
  lemma DocumentStartsWithTree(root: Node, cfg: Config)
    ensures TreeSection(root, cfg).out <= Document(root, cfg).out
  {
  }

  /** The tree section lists the lines of the entries printTree shows, and
      its summary line counts the shown directories and the shown files. */
  lemma TreeSectionShown(root: Node, cfg: Config)
    requires root.Directory? && root.listable
    ensures var items := Shown.ItemsFrom(root.children, 0, cfg.absRoot, "", cfg);
      TreeCounts(root, cfg) == (Shown.Directories(items), Shown.Files(items)) &&
      TreeSection(root, cfg).out ==
        [Text(TreeHeading), Text(RootMarker)] + Lines(Shown.LinesOf(items)) +
        [Text(Summary(Shown.Directories(items), Shown.Files(items)))]
  {
    Shown.RenderFromIsShown(root.children, 0, cfg.absRoot, "", cfg);
  }

  class Writer {
    var out: seq<Chunk>
    var dirs: nat
    var files: nat

    constructor ()
      ensures out == [] && dirs == 0 && files == 0
    {
      out := [];
      dirs := 0;
      files := 0;
    }

    /** printTree: the entry's line, then for a directory its entries with
        the longer prefix; the counters grow by the directories and files
        shown. */
    method PrintTree(n: Node, path: Path, prefix: string, isLast: bool, cfg: Config)
      modifies this
      decreases n, 1
      ensures var r := TreeRender.Render(n, path, prefix, isLast, cfg);
        out == old(out) + Lines(r.lines) && dirs == old(dirs) + r.dirs && files == old(files) + r.files
    {
      if path == cfg.output {
        return;
      }
      if !cfg.includeAll && ShouldIgnore(n.name) {
        return;
      }
      if ShouldExcludeByGlob(cfg.excludeGlobs, Dir(cfg.output), path) {
        return;
      }
      PrintShown(n, path, prefix, isLast, cfg);
    }

    /** The part of printTree after the checks. */
    method PrintShown(n: Node, path: Path, prefix: string, isLast: bool, cfg: Config)
      requires !TreeRender.HiddenInTree(n, path, cfg)
      modifies this
      decreases n, 0
      ensures var r := TreeRender.Render(n, path, prefix, isLast, cfg);
        out == old(out) + Lines(r.lines) && dirs == old(dirs) + r.dirs && files == old(files) + r.files
    {
      var branch := TreeRender.Tee;
      if isLast {
        branch := TreeRender.Elbow;
      }
      ghost var line := prefix + branch + n.name;
      assert line == prefix + TreeRender.Connector(isLast) + n.name;
      TreeRender.RenderShown(n, path, prefix, isLast, cfg);
      LinesOne(line);
      out := out + [Text(prefix + branch + n.name + "\n")];
      if n.Directory? {
        dirs := dirs + 1;
        if n.listable {
          ghost var below := TreeRender.RenderFrom(n.children, 0, path, TreeRender.ChildPrefix(prefix, isLast), cfg);
          LinesConcat([line], below.lines);
          AppendAssoc(old(out), [Text(line + "\n")], Lines(below.lines));
          PrintEntries(n.children, path, TreeRender.ChildPrefix(prefix, isLast), cfg);
        }
      } else {
        files := files + 1;
      }
    }

    /** The loop over a listing, in printTree and in main: each entry with
        the same prefix, the last one of the listing closing the branch. */
    method PrintEntries(entries: seq<Node>, dir: Path, prefix: string, cfg: Config)
      modifies this
      decreases entries, 0
      ensures var r := TreeRender.RenderFrom(entries, 0, dir, prefix, cfg);
        out == old(out) + Lines(r.lines) && dirs == old(dirs) + r.dirs && files == old(files) + r.files
    {
      for i := 0 to |entries|
        invariant var all := TreeRender.RenderFrom(entries, 0, dir, prefix, cfg);
          var rest := TreeRender.RenderFrom(entries, i, dir, prefix, cfg);
          old(out) + Lines(all.lines) == out + Lines(rest.lines) &&
          old(dirs) + all.dirs == dirs + rest.dirs && old(files) + all.files == files + rest.files
      {
        var head := TreeRender.Render(entries[i], dir + [entries[i].name], prefix, i == |entries| - 1, cfg);
        var tail := TreeRender.RenderFrom(entries, i + 1, dir, prefix, cfg);
        LinesConcat(head.lines, tail.lines);
        AppendAssoc(out, Lines(head.lines), Lines(tail.lines));
        PrintTree(entries[i], dir + [entries[i].name], prefix, i == |entries| - 1, cfg);
      }
    }

    /** dumpHex: read 16 bytes at a time and hand each read to hex.Dump. */
    method DumpHex(data: seq<byte>)
      modifies this`out
      ensures out == old(out) + HexChunks(data)
    {
      var pos := 0;
      while pos < |data|
        invariant 0 <= pos <= |data|
        invariant old(out) + HexChunks(data) == out + HexChunks(data[pos..])
        decreases |data| - pos
      {
        var n := if |data| - pos < RowSize then |data| - pos else RowSize;
        HexChunksStep(data, pos, n);
        out := out + [Hex(data[pos..pos + n])];
        pos := pos + n;
      }
    }

    /** The callback main hands to filepath.Walk. */
    method Visit(n: Node, path: Path, cfg: Config) returns (signal: Signal)
      modifies this`out
      ensures var s := Content.Visit(n, path, cfg);
        out == old(out) + s.out && signal == s.signal
    {
      if n.Directory? && !n.listable {
        return Abort;
      }
      if path == cfg.output {
        return Proceed;
      }
      if !cfg.includeAll && ShouldIgnore(n.name) {
        if n.Directory? {
          return SkipDir;
        }
        return Proceed;
      }
      if ShouldExcludeByGlob(cfg.excludeGlobs, cfg.absRoot, path) {
        if n.Directory? {
          return SkipDir;
        }
        return Proceed;
      }
      if ShouldIncludeByGlob(cfg.includeGlobs, cfg.absRoot, path) && n.File? {
        var rel := RelString(Rel(cfg.absRoot, path));
        signal := CopyFile(n, rel, cfg.includeBinaries);
        return;
      }
      return Proceed;
    }

    /** The callback's block for an admitted file, from isBinary on. */
    method CopyFile(n: Node, rel: string, includeBinaries: bool) returns (signal: Signal)
      requires n.File?
      modifies this`out
      ensures var s := FileBlock(n, rel, includeBinaries);
        out == old(out) + s.out && signal == s.signal
    {
      if n.access == Unopenable {
        return Proceed;
      }
      var isBin := IsBinary(n.data);
      var lang := DetectLang(n.name);
      out := out + [Text(Header(rel))];
      if isBin {
        signal := CopyBinary(n.data, n.access, includeBinaries);
      } else {
        signal := CopyText(n.data, n.access, lang);
      }
      ghost var body := FileBody(n.data, n.access, lang, includeBinaries);
      ghost var head := [Text(Header(rel))] + body.out;
      AppendAssoc(old(out), [Text(Header(rel))], body.out);
      if signal == Abort {
        assert head + [] == head;
        return;
      }
      out := out + [Text(Trailer)];
      AppendAssoc(old(out), head, [Text(Trailer)]);
    }

    /** A binary file's body: dumpHex or the placeholder line. */
    method CopyBinary(data: seq<byte>, access: Access, includeBinaries: bool) returns (signal: Signal)
      requires IsBinary(data)
      modifies this`out
      ensures var s := FileBody(data, access, "", includeBinaries);
        out == old(out) + s.out && signal == s.signal
    {
      if includeBinaries {
        if access == FailsWhileCopying {
          return Abort;
        }
        DumpHex(data);
      } else {
        out := out + [Text(Placeholder)];
      }
      return Proceed;
    }

    /** A text file's body: dumpText, inside a fence for a known language. */
    method CopyText(data: seq<byte>, access: Access, lang: string) returns (signal: Signal)
      requires !IsBinary(data)
      modifies this`out
      ensures var s := FileBody(data, access, lang, false);
        out == old(out) + s.out && signal == s.signal
    {
      if lang != "" {
        out := out + [Text(OpenFence(lang))];
      }
      if access == FailsWhileCopying {
        return Abort;
      }
      out := out + [Raw(data)];
      if lang != "" {
        out := out + [Text(CloseFence)];
      }
      return Proceed;
    }

    /** filepath.Walk's walk: call back, then walk a directory's entries,
        stopping at an error and, after SkipDir from a file, at the end of
        that file's directory. */
    method WalkNode(n: Node, path: Path, cfg: Config) returns (signal: Signal)
      modifies this`out
      decreases n, 1
      ensures var s := Content.WalkNode(n, path, cfg);
        out == old(out) + s.out && signal == s.signal
    {
      signal := Visit(n, path, cfg);
      if n.File? || signal != Proceed {
        return;
      }
      signal := WalkEntries(n.children, 0, path, cfg);
    }

    /** walk's loop over a listing, from the entry at index i on. */
    method WalkEntries(entries: seq<Node>, i: nat, dir: Path, cfg: Config) returns (signal: Signal)
      requires i <= |entries|
      modifies this`out
      decreases entries, |entries| - i
      ensures var s := Content.WalkFrom(entries, i, dir, cfg);
        out == old(out) + s.out && signal == s.signal
    {
      if i == |entries| {
        return Proceed;
      }
      WalkFromStep(entries, i, dir, cfg);
      signal := WalkNode(entries[i], dir + [entries[i].name], cfg);
      if signal == Abort || (signal == SkipDir && entries[i].File?) {
        return;
      }
      ghost var mid := out;
      ghost var head := Content.WalkNode(entries[i], dir + [entries[i].name], cfg).out;
      signal := WalkEntries(entries, i + 1, dir, cfg);
      AppendAssoc(old(out), head, out[|mid|..]);
    }

    method Walk(root: Node, cfg: Config) returns (signal: Signal)
      modifies this`out
      ensures var s := Content.Walk(root, cfg);
        out == old(out) + s.out && signal == s.signal
    {
      signal := WalkNode(root, cfg.absRoot, cfg);
      if signal == SkipDir {
        signal := Proceed;
      }
    }

    /** main from the tree heading to the summary line; false where main
        exits because the root cannot be listed. */
    method PrintDirectoryTree(root: Node, cfg: Config) returns (listed: bool)
      modifies this
      ensures out == old(out) + TreeSection(root, cfg).out && listed == TreeSection(root, cfg).ok
      ensures dirs == TreeCounts(root, cfg).0 && files == TreeCounts(root, cfg).1
    {
      ghost var head := [Text(TreeHeading), Text(RootMarker)];
      out := out + [Text(TreeHeading)];
      dirs, files := 0, 0;
      out := out + [Text(RootMarker)];
      AppendAssoc(old(out), [Text(TreeHeading)], [Text(RootMarker)]);
      assert [Text(TreeHeading)] + [Text(RootMarker)] == head;
      if !(root.Directory? && root.listable) {
        return false;
      }
      ghost var tree := TreeRender.RenderFrom(root.children, 0, cfg.absRoot, "", cfg);
      PrintEntries(root.children, cfg.absRoot, "", cfg);
      out := out + [Text(Summary(dirs, files))];
      AppendAssoc(old(out), head, Lines(tree.lines));
      AppendAssoc(old(out), head + Lines(tree.lines), [Text(Summary(dirs, files))]);
      return true;
    }

    /** main from the tree heading on: false where main exits with status 1
        (the root cannot be listed, or the walk fails). */
    method Run(root: Node, cfg: Config) returns (ok: bool)
      modifies this
      ensures out == old(out) + Document(root, cfg).out && ok == Document(root, cfg).ok
      ensures dirs == TreeCounts(root, cfg).0 && files == TreeCounts(root, cfg).1
    {
      ok := PrintDirectoryTree(root, cfg);
      if !ok {
        return;
      }
      ghost var t := TreeSection(root, cfg).out;
      out := out + [Text(ContentsHeading)];
      ghost var walk := Content.Walk(root, cfg);
      var signal := Walk(root, cfg);
      AppendAssoc(old(out), t, [Text(ContentsHeading)]);
      AppendAssoc(old(out), t + [Text(ContentsHeading)], walk.out);
      ok := signal != Abort;
    }
  }

  lemma AppendAssoc<T>(a: seq<T>, b: seq<T>, c: seq<T>)
    ensures a + (b + c) == (a + b) + c
  {
  }

  lemma LinesOne(line: string)
    ensures Lines([line]) == [Text(line + "\n")]
  {
  }

  /** One read of dumpHex takes the next row of HexChunks. */
  lemma HexChunksStep(data: seq<byte>, pos: nat, n: nat)
    requires pos < |data| && n == (if |data| - pos < RowSize then |data| - pos else RowSize)
    ensures pos + n <= |data|
    ensures HexChunks(data[pos..]) == [Hex(data[pos..pos + n])] + HexChunks(data[pos + n..])
  {
    var d := data[pos..];
    if |d| <= RowSize {
      assert d == data[pos..pos + n];
      assert data[pos + n..] == [];
    } else {
      assert d[..RowSize] == data[pos..pos + n];
      assert d[RowSize..] == data[pos + n..];
    }
  }
}
