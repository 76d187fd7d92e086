/** Shell-style pattern matching as filepath.Match does it on a system whose
    separator is '/': '*' matches any run of characters other than '/', '?'
    any one character other than '/', '\' makes the next character literal,
    and every other character matches itself. A pattern that ends in a lone
    '\' is malformed; filepath.Match reports that as an error, which the
    filters read as "no match". */
module Glob {

  function Match(pattern: string, name: string): bool
    decreases |pattern| + |name|
  {
    if pattern == [] then name == []
    else if pattern[0] == '*' then
      Match(pattern[1..], name) || (name != [] && name[0] != '/' && Match(pattern, name[1..]))
    else if pattern[0] == '?' then
      name != [] && name[0] != '/' && Match(pattern[1..], name[1..])
    else if pattern[0] == '\\' then
      |pattern| >= 2 && name != [] && name[0] == pattern[1] && Match(pattern[2..], name[1..])
    else
      name != [] && name[0] == pattern[0] && Match(pattern[1..], name[1..])
  }

  /** Number of '/' characters in s. */
  function Slashes(s: string): nat {
    if s == [] then 0 else (if s[0] == '/' then 1 else 0) + Slashes(s[1..])
  }

  /** A pattern without wildcards or escapes. */
  predicate IsLiteral(p: string) {
    forall i :: 0 <= i < |p| ==> p[i] != '*' && p[i] != '?' && p[i] != '\\'
  }

  /** Wildcards never cross a separator: a match pairs every '/' of the name
      with a '/' of the pattern, so a pattern and a name it matches have the
      same number of path segments. */
  lemma {:induction false} MatchKeepsSlashes(pattern: string, name: string)
    requires Match(pattern, name)
    ensures Slashes(pattern) == Slashes(name)
    decreases |pattern| + |name|
  {
    if pattern == [] {
    } else if pattern[0] == '*' {
      if Match(pattern[1..], name) {
        MatchKeepsSlashes(pattern[1..], name);
      } else {
        MatchKeepsSlashes(pattern, name[1..]);
      }
    } else if pattern[0] == '?' {
      MatchKeepsSlashes(pattern[1..], name[1..]);
    } else if pattern[0] == '\\' {
      MatchKeepsSlashes(pattern[2..], name[1..]);
      assert pattern[1..][1..] == pattern[2..];
    } else {
      MatchKeepsSlashes(pattern[1..], name[1..]);
    }
  }

  /** A pattern made of literal characters matches exactly itself. */
  lemma {:induction false} LiteralMatchesItself(p: string, name: string)
    requires IsLiteral(p)
    ensures Match(p, name) <==> name == p
  {
    if p != [] {
      assert IsLiteral(p[1..]);
      if name != [] {
        LiteralMatchesItself(p[1..], name[1..]);
      }
      if name != [] && name[0] == p[0] && name[1..] == p[1..] {
        assert name == [name[0]] + name[1..];
        assert p == [p[0]] + p[1..];
      }
    }
  }

  /** A lone '*' matches exactly the names that hold no separator. */
  lemma {:induction false} StarMatchesOneSegment(name: string)
    ensures Match("*", name) <==> '/' !in name
  {
    assert "*"[1..] == "";
    if name != [] {
      StarMatchesOneSegment(name[1..]);
      assert name == [name[0]] + name[1..];
    }
  }

  /** '*' followed by literal text without a separator (as in "*.go")
      matches exactly the names without a separator that end in that text. */
  lemma {:induction false} StarSuffix(lit: string, name: string)
    requires IsLiteral(lit) && '/' !in lit
    ensures Match(['*'] + lit, name) <==>
      '/' !in name && |lit| <= |name| && name[|name| - |lit|..] == lit
  {
    var p := ['*'] + lit;
    assert p[0] == '*' && p[1..] == lit;
    LiteralMatchesItself(lit, name);
    if name != [] {
      StarSuffix(lit, name[1..]);
      assert name == [name[0]] + name[1..];
      if |lit| <= |name| - 1 {
        assert name[1..][|name| - 1 - |lit|..] == name[|name| - |lit|..];
      }
      if |lit| == |name| {
        assert name[|name| - |lit|..] == name;
      }
    }
  }

  /** "*.go" and "*.md" accept "keep.go" and "keep.md" and turn down
      "skip.txt" (the include patterns of the repository's glob test). */
  lemma IncludePatternExamples()
    ensures Match("*.go", "keep.go") && Match("*.md", "keep.md")
    ensures !Match("*.go", "skip.txt") && !Match("*.md", "skip.txt")
  {
    assert IsLiteral(".go") && IsLiteral(".md");
    assert '/' !in ".go" && '/' !in ".md";
    assert "*.go" == ['*'] + ".go" && "*.md" == ['*'] + ".md";
    StarSuffix(".go", "keep.go");
    StarSuffix(".md", "keep.md");
    StarSuffix(".go", "skip.txt");
    StarSuffix(".md", "skip.txt");
    assert "keep.go"[4..] == ".go" && "keep.md"[4..] == ".md";
    assert "skip.txt"[5..] == "txt";
  }

  /** The exclude pattern of that test, "vendor" followed by a separator and
      '*', accepts "vendor/junk.go", which "*.go" cannot accept because the
      name holds a separator. */
  lemma ExcludePatternExamples()
    ensures Match("vendor/*", "vendor/junk.go")
    ensures !Match("*.go", "vendor/junk.go")
  {
    VendorMatches();
    GoSkipsVendor();
  }

  lemma VendorMatches()
    ensures Match("vendor/*", "vendor/junk.go")
  {
    assert "vendor/*" == "vendor/" + "*";
    assert "vendor/junk.go" == "vendor/" + "junk.go";
    assert IsLiteral("vendor/");
    LiteralPrefix("vendor/", "*", "junk.go");
    StarMatchesOneSegment("junk.go");
  }

  lemma GoSkipsVendor()
    ensures !Match("*.go", "vendor/junk.go")
  {
    NoSlashes("*.go");
    VendorJunkSlashes();
    SlashesDiffer("*.go", "vendor/junk.go");
  }

  lemma VendorJunkSlashes()
    ensures Slashes("vendor/junk.go") == 1
  {
    assert "vendor/junk.go" == "vendor" + "/" + "junk.go";
    OneSeparator("vendor", "junk.go");
  }

  lemma OneSeparator(a: string, b: string)
    requires '/' !in a && '/' !in b
    ensures Slashes(a + "/" + b) == 1
  {
    SlashesSplit(a + "/", b);
    SlashesSplit(a, "/");
    NoSlashes(a);
    NoSlashes(b);
    assert Slashes("/") == 1 by { assert "/"[1..] == ""; }
  }

  /** A pattern and a name with different numbers of separators never
      match. */
  lemma SlashesDiffer(p: string, s: string)
    requires Slashes(p) != Slashes(s)
    ensures !Match(p, s)
  {
    if Match(p, s) {
      MatchKeepsSlashes(p, s);
    }
  }

  /** A literal prefix shared by pattern and name is matched character by
      character. */
  lemma {:induction false} LiteralPrefix(lit: string, p: string, s: string)
    requires IsLiteral(lit)
    ensures Match(lit + p, lit + s) == Match(p, s)
  {
    if lit != [] {
      assert (lit + p)[0] == lit[0] && (lit + s)[0] == lit[0];
      assert (lit + p)[1..] == lit[1..] + p && (lit + s)[1..] == lit[1..] + s;
      assert IsLiteral(lit[1..]);
      LiteralPrefix(lit[1..], p, s);
    } else {
      assert lit + p == p && lit + s == s;
    }
  }

  lemma {:induction false} NoSlashes(s: string)
    requires '/' !in s
    ensures Slashes(s) == 0
  {
    if s != [] {
      assert s[0] != '/';
      NoSlashes(s[1..]);
    }
  }

  lemma {:induction false} SlashesSplit(a: string, b: string)
    ensures Slashes(a + b) == Slashes(a) + Slashes(b)
  {
    if a == [] {
      assert a + b == b;
    } else {
      assert (a + b)[1..] == a[1..] + b;
      SlashesSplit(a[1..], b);
    }
  }
}
