/** The path filters: the default ignore list, matched case-insensitively
    against a bare name, the include patterns, matched against the base name
    of the root-relative path, and the exclude patterns, matched against the
    whole root-relative path. The pattern lists, which the program keeps in
    package variables, are parameters here. */
module Filters {
  import opened Paths
  import Glob

  /** The names ignored unless every file is asked for. */
  const DefaultIgnores: seq<string> := [".git", ".vscode"]

  /** One step of simple case folding, for the characters whose case orbit
      holds an ASCII letter: A-Z fold to a-z, LONG S (U+017F) to 's' and
      KELVIN SIGN (U+212A) to 'k'. */
  function FoldChar(c: char): char {
    if 'A' <= c <= 'Z' then (c as int + 32) as char
    else if c == '\U{017F}' then 's'
    else if c == '\U{212A}' then 'k'
    else c
  }

  /** strings.EqualFold against an ASCII string. */
  predicate EqualFold(a: string, b: string) {
    |a| == |b| && forall i :: 0 <= i < |a| ==> FoldChar(a[i]) == FoldChar(b[i])
  }

  /** shouldIgnore: some default name equals the given one, ignoring case. */
  predicate ShouldIgnore(name: string) {
    exists i :: 0 <= i < |DefaultIgnores| && EqualFold(name, DefaultIgnores[i])
  }

  /** The early-return scan over a pattern list that both glob filters run:
      true at the first pattern that matches. */
  function AnyMatch(patterns: seq<string>, s: string): (r: bool)
    ensures r <==> exists i :: 0 <= i < |patterns| && Glob.Match(patterns[i], s)
  {
    if patterns == [] then false
    else if Glob.Match(patterns[0], s) then true
    else
      var r := AnyMatch(patterns[1..], s);
      assert forall i :: 1 <= i < |patterns| ==> patterns[i] == patterns[1..][i - 1];
      r
  }

  /** shouldIncludeByGlob(root, path): no patterns admit everything;
      otherwise a pattern must match the base name of the relative path. */
  predicate ShouldIncludeByGlob(includeGlobs: seq<string>, root: Path, path: Path) {
    |includeGlobs| == 0 || AnyMatch(includeGlobs, BaseName(Rel(root, path)))
  }

  /** shouldExcludeByGlob(root, path): no patterns exclude nothing;
      otherwise a pattern must match the whole relative path. */
  predicate ShouldExcludeByGlob(excludeGlobs: seq<string>, root: Path, path: Path) {
    |excludeGlobs| != 0 && AnyMatch(excludeGlobs, RelString(Rel(root, path)))
  }

  /** The ignore list is exactly ".git" and ".vscode", up to case. */
  lemma IgnoreIff(name: string)
    ensures ShouldIgnore(name) <==> EqualFold(name, ".git") || EqualFold(name, ".vscode")
  {
    assert DefaultIgnores[0] == ".git" && DefaultIgnores[1] == ".vscode";
  }

  /** The unit test's ignored case, ".git", with case-insensitive variants. */
  lemma IgnoredExamples()
    ensures ShouldIgnore(".git") && ShouldIgnore(".GIT") && ShouldIgnore(".VSCode")
    ensures ShouldIgnore(".v\U{017F}code")
  {
    IgnoreIff(".git");
    IgnoreIff(".GIT");
    IgnoreIff(".VSCode");
    IgnoreIff(".v\U{017F}code");
    assert EqualFold(".GIT", ".git");
    assert EqualFold(".VSCode", ".vscode");
    assert EqualFold(".v\U{017F}code", ".vscode");
  }

  /** The unit test's kept case, "main.go", and names close to the ignored
      ones. */
  lemma KeptExamples()
    ensures !ShouldIgnore("main.go") && !ShouldIgnore(".github") && !ShouldIgnore("git")
  {
    IgnoreIff("main.go");
    IgnoreIff(".github");
    IgnoreIff("git");
    assert FoldChar("main.go"[0]) != FoldChar(".vscode"[0]);
    assert FoldChar(".github"[1]) != FoldChar(".vscode"[1]);
  }

  /** With no include patterns every path is admitted; with some, a path is
      admitted exactly when one of them matches its base name. */
  lemma IncludeIff(includeGlobs: seq<string>, root: Path, path: Path)
    ensures |includeGlobs| == 0 ==> ShouldIncludeByGlob(includeGlobs, root, path)
    ensures |includeGlobs| != 0 ==>
      (ShouldIncludeByGlob(includeGlobs, root, path) <==>
       exists i :: 0 <= i < |includeGlobs| && Glob.Match(includeGlobs[i], BaseName(Rel(root, path))))
  {
  }

  /** With no exclude patterns nothing is excluded; with some, a path is
      excluded exactly when one of them matches the whole relative path. */
  lemma ExcludeIff(excludeGlobs: seq<string>, root: Path, path: Path)
    ensures |excludeGlobs| == 0 ==> !ShouldExcludeByGlob(excludeGlobs, root, path)
    ensures ShouldExcludeByGlob(excludeGlobs, root, path) <==>
      exists i :: 0 <= i < |excludeGlobs| && Glob.Match(excludeGlobs[i], RelString(Rel(root, path)))
  {
  }

  /** The include filter sees only the base name: moving a file to another
      directory below the root never changes whether it is admitted. */
  lemma IncludeSeesBaseOnly(includeGlobs: seq<string>, root: Path, dirs1: Path, dirs2: Path, name: string)
    ensures ShouldIncludeByGlob(includeGlobs, root, root + dirs1 + [name]) ==
            ShouldIncludeByGlob(includeGlobs, root, root + dirs2 + [name])
  {
    assert root + dirs1 + [name] == root + (dirs1 + [name]);
    assert root + dirs2 + [name] == root + (dirs2 + [name]);
    RelBelow(root, dirs1 + [name]);
    RelBelow(root, dirs2 + [name]);
  }

  /** The repository's glob test, include half: with the patterns "*.go"
      and "*.md", keep.go and keep.md are admitted and skip.txt is not. */
  lemma IncludeTestExamples(root: Path)
    ensures ShouldIncludeByGlob(["*.go", "*.md"], root, root + ["keep.go"])
    ensures ShouldIncludeByGlob(["*.go", "*.md"], root, root + ["keep.md"])
    ensures !ShouldIncludeByGlob(["*.go", "*.md"], root, root + ["skip.txt"])
  {
    RelBelow(root, ["keep.go"]);
    RelBelow(root, ["keep.md"]);
    RelBelow(root, ["skip.txt"]);
    Glob.IncludePatternExamples();
    var inc := ["*.go", "*.md"];
    assert inc[0] == "*.go" && inc[1] == "*.md";
  }

  /** The exclude half: the pattern "vendor/" followed by '*' excludes
      vendor/junk.go but not keep.go at the root. */
  lemma ExcludeTestExamples(root: Path)
    ensures ShouldExcludeByGlob(["vendor/*"], root, root + ["vendor", "junk.go"])
    ensures !ShouldExcludeByGlob(["vendor/*"], root, root + ["keep.go"])
  {
    ExcludesJunk(root);
    KeepsKeep(root);
  }

  lemma ExcludesJunk(root: Path)
    ensures ShouldExcludeByGlob(["vendor/*"], root, root + ["vendor", "junk.go"])
  {
    RelBelow(root, ["vendor", "junk.go"]);
    Glob.ExcludePatternExamples();
    assert Join(["vendor", "junk.go"]) == "vendor/junk.go" by {
      assert ["vendor", "junk.go"][..1] == ["vendor"];
    }
    var exc := ["vendor/*"];
    assert exc[0] == "vendor/*";
  }

  lemma KeepsKeep(root: Path)
    ensures !ShouldExcludeByGlob(["vendor/*"], root, root + ["keep.go"])
  {
    RelBelow(root, ["keep.go"]);
    KeepIsNotVendor();
    var exc := ["vendor/*"];
    assert exc[0] == "vendor/*";
  }

  lemma KeepIsNotVendor()
    ensures !Glob.Match("vendor/*", "keep.go")
  {
    assert "vendor/*"[0] == 'v' && "keep.go"[0] == 'k';
  }

  /** Both ignored names start with '.', which no other character folds
      to, so a name that does not start with '.' is never ignored. */
  lemma NotDotted(name: string)
    requires name != [] && name[0] != '.'
    ensures !ShouldIgnore(name)
  {
    IgnoreIff(name);
    assert FoldChar(name[0]) != '.';
    assert ".git"[0] == '.' && ".vscode"[0] == '.';
  }
}
