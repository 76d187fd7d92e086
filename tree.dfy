/** What printTree writes: one line per entry it shows, made of the prefix
    inherited from the ancestors, a connector and the entry's name, plus the
    directory and file counts it adds. The object that writes these lines
    and bumps the counters is Overview.Writer; this module is its
    specification and the properties of it. */
module TreeRender {
  import opened Paths
  import opened Filters
  import opened FileSystem

  const Tee: string := "\U{251C}\U{2500}\U{2500} "     // "├── "
  const Elbow: string := "\U{2514}\U{2500}\U{2500} "   // "└── "
  const Bar: string := "\U{2502}   "                   // "│   "
  const Gap: string := "    "

  function Connector(isLast: bool): string {
    if isLast then Elbow else Tee
  }

  /** The prefix the children of a shown directory get. */
  function ChildPrefix(prefix: string, isLast: bool): string {
    prefix + (if isLast then Gap else Bar)
  }

  /** The lines written and the counts added by one call. */
  datatype Rendered = Rendered(lines: seq<string>, dirs: nat, files: nat)

  /** printTree leaves an entry out when it is the output file, when its
      name is on the ignore list and --all is off, or when an exclude
      pattern matches its path taken relative to the output file's
      directory (not the walked root). */
  predicate HiddenInTree(n: Node, path: Path, cfg: Config) {
    path == cfg.output ||
    (!cfg.includeAll && ShouldIgnore(n.name)) ||
    ShouldExcludeByGlob(cfg.excludeGlobs, Dir(cfg.output), path)
  }

  /** printTree(path, prefix, isLast) for the entry n found at the absolute
      path. A directory that cannot be listed keeps its own line and count
      but shows no children. */
  function Render(n: Node, path: Path, prefix: string, isLast: bool, cfg: Config): (r: Rendered)
    decreases n, 1
    ensures |r.lines| == r.dirs + r.files
    ensures HiddenInTree(n, path, cfg) ==> r == Rendered([], 0, 0)
    ensures !HiddenInTree(n, path, cfg) ==>
      r.lines != [] && r.lines[0] == prefix + Connector(isLast) + n.name &&
      (if n.Directory? then r.dirs >= 1 else r == Rendered(r.lines, 0, 1))
  {
    if HiddenInTree(n, path, cfg) then Rendered([], 0, 0)
    else
      var line := prefix + Connector(isLast) + n.name;
      match n
      case File(_, _, _) => Rendered([line], 0, 1)
      case Directory(_, children, listable) =>
        var below := if listable then RenderFrom(children, 0, path, ChildPrefix(prefix, isLast), cfg)
                     else Rendered([], 0, 0);
        Rendered([line] + below.lines, 1 + below.dirs, below.files)
  }

  /** The loop of printTree (and of main over the root's entries) from the
      entry at index i on: each entry is rendered with the same prefix, and
      only the last entry of the unfiltered listing gets the closing
      connector. */
  function RenderFrom(entries: seq<Node>, i: nat, dir: Path, prefix: string, cfg: Config): (r: Rendered)
    requires i <= |entries|
    decreases entries, |entries| - i
    ensures |r.lines| == r.dirs + r.files
  {
    if i == |entries| then Rendered([], 0, 0)
    else
      var head := Render(entries[i], dir + [entries[i].name], prefix, i == |entries| - 1, cfg);
      var tail := RenderFrom(entries, i + 1, dir, prefix, cfg);
      Rendered(head.lines + tail.lines, head.dirs + tail.dirs, head.files + tail.files)
  }

  /** What printTree writes for an entry it shows: its line, then for a
      directory that can be listed the lines of its entries. */
  lemma RenderShown(n: Node, path: Path, prefix: string, isLast: bool, cfg: Config)
    requires !HiddenInTree(n, path, cfg)
    ensures var line := prefix + Connector(isLast) + n.name;
      Render(n, path, prefix, isLast, cfg) ==
        if n.File? then Rendered([line], 0, 1)
        else if !n.listable then Rendered([line], 1, 0)
        else
          var below := RenderFrom(n.children, 0, path, ChildPrefix(prefix, isLast), cfg);
          Rendered([line] + below.lines, 1 + below.dirs, below.files)
  {
  }

  /** Every line of an entry starts with the prefix it was given, and every
      line below its own with the prefix its children get: the inherited
      bars and gaps line up under the ancestors' connectors. */
  lemma {:induction false} RenderPrefixes(n: Node, path: Path, prefix: string, isLast: bool, cfg: Config)
    ensures forall k :: 0 <= k < |Render(n, path, prefix, isLast, cfg).lines| ==>
      prefix <= Render(n, path, prefix, isLast, cfg).lines[k]
    ensures forall k :: 1 <= k < |Render(n, path, prefix, isLast, cfg).lines| ==>
      ChildPrefix(prefix, isLast) <= Render(n, path, prefix, isLast, cfg).lines[k]
    decreases n, 1
  {
    var r := Render(n, path, prefix, isLast, cfg);
    if !HiddenInTree(n, path, cfg) {
      var child := ChildPrefix(prefix, isLast);
      var line := prefix + Connector(isLast) + n.name;
      assert r.lines[0] == line;
      PrefixOfConcat(prefix, Connector(isLast) + n.name);
      assert prefix + (Connector(isLast) + n.name) == line;
      if n.Directory? && n.listable {
        var below := RenderFrom(n.children, 0, path, child, cfg);
        RenderFromPrefixes(n.children, 0, path, child, cfg);
        assert r.lines == [line] + below.lines;
        PrefixOfConcat(prefix, if isLast then Gap else Bar);
        forall k | 1 <= k < |r.lines|
          ensures prefix <= r.lines[k] && child <= r.lines[k]
        {
          assert r.lines[k] == below.lines[k - 1];
          PrefixTrans(prefix, child, r.lines[k]);
        }
      }
    }
  }

  lemma PrefixOfConcat(a: string, b: string)
    ensures a <= a + b
  {
    assert (a + b)[..|a|] == a;
  }

  lemma PrefixTrans(a: string, b: string, c: string)
    requires a <= b && b <= c
    ensures a <= c
  {
    assert c[..|b|][..|a|] == c[..|a|];
  }

  lemma {:induction false} RenderFromPrefixes(entries: seq<Node>, i: nat, dir: Path, prefix: string, cfg: Config)
    requires i <= |entries|
    ensures forall k :: 0 <= k < |RenderFrom(entries, i, dir, prefix, cfg).lines| ==>
      prefix <= RenderFrom(entries, i, dir, prefix, cfg).lines[k]
    decreases entries, |entries| - i
  {
    if i < |entries| {
      var head := Render(entries[i], dir + [entries[i].name], prefix, i == |entries| - 1, cfg);
      var tail := RenderFrom(entries, i + 1, dir, prefix, cfg);
      RenderPrefixes(entries[i], dir + [entries[i].name], prefix, i == |entries| - 1, cfg);
      RenderFromPrefixes(entries, i + 1, dir, prefix, cfg);
      var r := RenderFrom(entries, i, dir, prefix, cfg);
      assert r.lines == head.lines + tail.lines;
      forall k | 0 <= k < |r.lines|
        ensures prefix <= r.lines[k]
      {
        if k < |head.lines| {
          assert r.lines[k] == head.lines[k];
        } else {
          assert r.lines[k] == tail.lines[k - |head.lines|];
        }
      }
    }
  }

  /** The include patterns and --include-binaries never change the tree. */
  lemma {:induction false} RenderIgnoresIncludes(n: Node, path: Path, prefix: string, isLast: bool,
                                                 cfg: Config, globs: seq<string>, binaries: bool)
    ensures Render(n, path, prefix, isLast, cfg) ==
            Render(n, path, prefix, isLast, cfg.(includeGlobs := globs, includeBinaries := binaries))
    decreases n, 1
  {
    if n.Directory? && n.listable {
      RenderFromIgnoresIncludes(n.children, 0, path, ChildPrefix(prefix, isLast), cfg, globs, binaries);
    }
  }

  lemma {:induction false} RenderFromIgnoresIncludes(entries: seq<Node>, i: nat, dir: Path, prefix: string,
                                                     cfg: Config, globs: seq<string>, binaries: bool)
    requires i <= |entries|
    ensures RenderFrom(entries, i, dir, prefix, cfg) ==
            RenderFrom(entries, i, dir, prefix, cfg.(includeGlobs := globs, includeBinaries := binaries))
    decreases entries, |entries| - i
  {
    if i < |entries| {
      RenderIgnoresIncludes(entries[i], dir + [entries[i].name], prefix, i == |entries| - 1, cfg, globs, binaries);
      RenderFromIgnoresIncludes(entries, i + 1, dir, prefix, cfg, globs, binaries);
    }
  }

  /** An entry is shown by the loop only with the connector its place in
      the unfiltered listing gives it. */
  lemma EntryConnector(entries: seq<Node>, i: nat, dir: Path, prefix: string, cfg: Config)
    requires i < |entries| && !HiddenInTree(entries[i], dir + [entries[i].name], cfg)
    ensures RenderFrom(entries, i, dir, prefix, cfg).lines[0] ==
            prefix + Connector(i == |entries| - 1) + entries[i].name
  {
  }

  /** A configuration with no patterns, --all off and the output file
      outside the tree. */
  function Plain(root: Path): Config {
    Config(root, ["tmp", "out.md"], false, false, [], [])
  }

  /** A two-entry tree: a.txt, then b_dir holding c.txt, gives three
      lines, one directory and two files. */
  lemma RenderExample(root: Path)
    requires root != [] && root[0] == "home"
    ensures var tree := [File("a.txt", [], Readable), Directory("b_dir", [File("c.txt", [], Readable)], true)];
      RenderFrom(tree, 0, root, "", Plain(root)) ==
        Rendered([Tee + "a.txt", Elbow + "b_dir", Gap + Elbow + "c.txt"], 1, 2)
  {
    var cfg := Plain(root);
    var b := Directory("b_dir", [File("c.txt", [], Readable)], true);
    var a := File("a.txt", [], Readable);
    var tree := [a, b];
    ShownPlain(a, root + ["a.txt"], root);
    var bLines := Render(b, root + ["b_dir"], "", true, cfg);
    RenderBDir(root);
    assert RenderFrom(tree, 2, root, "", cfg) == Rendered([], 0, 0);
    assert RenderFrom(tree, 1, root, "", cfg) == Rendered(bLines.lines + [], 1, 1);
    assert "" + Connector(false) + "a.txt" == Tee + "a.txt";
    assert Render(a, root + ["a.txt"], "", false, cfg) == Rendered([Tee + "a.txt"], 0, 1);
  }

  lemma RenderBDir(root: Path)
    requires root != [] && root[0] == "home"
    ensures Render(Directory("b_dir", [File("c.txt", [], Readable)], true), root + ["b_dir"], "", true, Plain(root)) ==
      Rendered([Elbow + "b_dir", Gap + Elbow + "c.txt"], 1, 1)
  {
    var cfg := Plain(root);
    var c := File("c.txt", [], Readable);
    var b := Directory("b_dir", [c], true);
    var bPath := root + ["b_dir"];
    ShownPlain(b, bPath, root);
    ShownPlain(c, bPath + ["c.txt"], root);
    assert ChildPrefix("", true) == Gap;
    var cLines := Render(c, bPath + ["c.txt"], Gap, true, cfg);
    assert cLines == Rendered([Gap + Elbow + "c.txt"], 0, 1);
    assert RenderFrom([c], 1, bPath, Gap, cfg) == Rendered([], 0, 0);
    assert RenderFrom([c], 0, bPath, Gap, cfg) == Rendered(cLines.lines + [], 0, 1);
    assert cLines.lines + [] == cLines.lines;
    assert "" + Connector(true) + "b_dir" == Elbow + "b_dir";
    assert [Elbow + "b_dir"] + [Gap + Elbow + "c.txt"] == [Elbow + "b_dir", Gap + Elbow + "c.txt"];
  }

  /** isLast comes from the unfiltered listing: when the last entry is
      hidden (here an ignored ".git"), the entry shown before it keeps the
      open connector and no line closes the branch. */
  lemma HiddenLastEntryKeepsTee(root: Path)
    requires root != [] && root[0] == "home"
    ensures var tree := [File("a.txt", [], Readable), Directory(".git", [], true)];
      RenderFrom(tree, 0, root, "", Plain(root)).lines == [Tee + "a.txt"]
  {
    var cfg := Plain(root);
    var a := File("a.txt", [], Readable);
    var g := Directory(".git", [], true);
    var tree := [a, g];
    ShownPlain(a, root + ["a.txt"], root);
    GitHidden(g, root + [".git"], cfg);
    assert Render(g, root + [".git"], "", true, cfg) == Rendered([], 0, 0);
    assert RenderFrom(tree, 2, root, "", cfg) == Rendered([], 0, 0);
    assert RenderFrom(tree, 1, root, "", cfg) == Rendered([], 0, 0);
    assert "" + Connector(false) + "a.txt" == Tee + "a.txt";
    assert Render(a, root + ["a.txt"], "", false, cfg) == Rendered([Tee + "a.txt"], 0, 1);
  }

  lemma GitHidden(g: Node, path: Path, cfg: Config)
    requires g.name == ".git" && !cfg.includeAll
    ensures HiddenInTree(g, path, cfg)
  {
    IgnoredExamples();
  }

  /** Under the plain configuration an entry whose name does not start
      with '.' is shown. */
  lemma ShownPlain(n: Node, path: Path, root: Path)
    requires n.name != [] && n.name[0] != '.' && path != [] && path[0] == "home"
    ensures !HiddenInTree(n, path, Plain(root))
  {
    NotDotted(n.name);
  }

  /** The exclude patterns are applied relative to the output file's
      directory. With the output file outside the root, the pattern
      "vendor" no longer matches the root's vendor directory, so the tree
      still shows it (the content walk, which takes paths relative to the
      root, prunes it). */
  lemma ExcludeRelativeToOutputDir()
    ensures var cfg := Config(["home", "proj"], ["tmp", "out.md"], false, false, [], ["vendor"]);
      !HiddenInTree(Directory("vendor", [], true), ["home", "proj", "vendor"], cfg) &&
      ShouldExcludeByGlob(cfg.excludeGlobs, cfg.absRoot, ["home", "proj", "vendor"])
  {
    var cfg := Config(["home", "proj"], ["tmp", "out.md"], false, false, [], ["vendor"]);
    assert Dir(cfg.output) == ["tmp"];
    var up := Rel(["tmp"], ["home", "proj", "vendor"]);
    assert up == [".."] + ["home", "proj", "vendor"] by {
      assert Ups(1) == [".."];
    }
    var s := RelString(up);
    assert |s| > 6 by {
      JoinLength(up);
    }
    assert Glob.IsLiteral("vendor");
    Glob.LiteralMatchesItself("vendor", s);
    NotDotted("vendor");
    RelBelow(["home", "proj"], ["vendor"]);
    assert ["home", "proj"] + ["vendor"] == ["home", "proj", "vendor"];
    Glob.LiteralMatchesItself("vendor", "vendor");
  }

  /** With the output file in the walked root (the default place), tree and
      walk apply the exclude patterns to the same relative path. */
  lemma ExcludeAgreesForDefaultOutput(cfg: Config, rel: Path)
    requires Dir(cfg.output) == cfg.absRoot
    ensures ShouldExcludeByGlob(cfg.excludeGlobs, Dir(cfg.output), cfg.absRoot + rel) <==>
      |cfg.excludeGlobs| != 0 &&
      exists i :: 0 <= i < |cfg.excludeGlobs| && Glob.Match(cfg.excludeGlobs[i], RelString(rel))
  {
    RelBelow(cfg.absRoot, rel);
  }
}
