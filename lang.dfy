/** detectLang: the code-fence label for a file, chosen by its lower-cased
    extension. The extension table is ASCII, and strings.ToLower can only
    turn a non-ASCII character into an ASCII letter for 'i' and 'k', which
    occur in no entry, so lowering ASCII letters alone gives the same
    labels. */
module Lang {
  import opened Paths

  function LowerChar(c: char): char {
    if 'A' <= c <= 'Z' then (c as int + 32) as char else c
  }

  function Lower(s: string): string {
    seq(|s|, i requires 0 <= i < |s| => LowerChar(s[i]))
  }

  /** The switch of detectLang over a lower-cased extension. */
  function LangOf(ext: string): string {
    match ext
    case ".go" => "go"
    case ".yml" => "yaml"
    case ".yaml" => "yaml"
    case ".json" => "json"
    case ".md" => "markdown"
    case ".sh" => "bash"
    case ".ps1" => "powershell"
    case ".toml" => "toml"
    case _ => ""
  }

  /** Exactly the eight extensions of the table get a label. */
  lemma LangTable(ext: string)
    ensures LangOf(ext) != "" <==>
      ext in [".go", ".yml", ".yaml", ".json", ".md", ".sh", ".ps1", ".toml"]
  {
  }

  /** detectLang applied to a file's name, which is also what it sees of a
      full path (see Paths.ExtOfFinalElement). */
  function DetectLang(name: string): string {
    LangOf(Lower(Ext(name)))
  }

  /** Lowering keeps '.' and '/' where they are, so it commutes with Ext. */
  lemma {:induction false} ExtOfLower(s: string)
    ensures Ext(Lower(s)) == Lower(Ext(s))
  {
    var l := Lower(s);
    if s == [] {
    } else {
      var n := |s|;
      var c := s[n - 1];
      assert l[n - 1] == LowerChar(c);
      if c == '/' {
      } else if c == '.' {
        assert Lower(".") == ".";
      } else {
        assert l[..n - 1] == Lower(s[..n - 1]);
        ExtOfLower(s[..n - 1]);
        var e := Ext(s[..n - 1]);
        assert Ext(l) == (if Lower(e) == "" then "" else Lower(e) + [LowerChar(c)]);
        if e != "" {
          assert Lower(e + [c]) == Lower(e) + [LowerChar(c)];
        }
      }
    }
  }

  /** The label ignores the case of ASCII letters: two names that agree
      once lowered get the same label. */
  lemma DetectLangIgnoresCase(a: string, b: string)
    requires Lower(a) == Lower(b)
    ensures DetectLang(a) == DetectLang(b)
  {
    ExtOfLower(a);
    ExtOfLower(b);
  }

  /** The cases of the repository's detectLang test, each file name split
      at its last '.', with the label it should get. */
  const DetectLangTests: seq<(string, string, string)> := [
    ("file", ".go", "go"),
    ("config", ".yml", "yaml"),
    ("config", ".yaml", "yaml"),
    ("data", ".json", "json"),
    ("readme", ".md", "markdown"),
    ("script", ".sh", "bash"),
    ("script", ".ps1", "powershell"),
    ("config", ".toml", "toml"),
    ("unknown", ".xyz", "")]

  /** Every case of the test table gets its label. */
  lemma DetectLangTestTable()
    ensures forall i :: 0 <= i < |DetectLangTests| ==>
      DetectLang(DetectLangTests[i].0 + DetectLangTests[i].1) == DetectLangTests[i].2
  {
    forall i | 0 <= i < |DetectLangTests|
      ensures DetectLang(DetectLangTests[i].0 + DetectLangTests[i].1) == DetectLangTests[i].2
    {
      LowerExtLabel(DetectLangTests[i].0, DetectLangTests[i].1);
    }
  }

  /** A name stem + ext, where ext is a final extension already in lower
      case, gets the label of ext, whatever the stem. */
  lemma LowerExtLabel(stem: string, ext: string)
    requires |ext| > 0 && ext[0] == '.'
    requires forall i :: 1 <= i < |ext| ==> ext[i] != '.' && ext[i] != '/' && !('A' <= ext[i] <= 'Z')
    ensures DetectLang(stem + ext) == LangOf(ext)
  {
    var tail := ext[1..];
    assert ext == "." + tail;
    assert stem + ext == stem + "." + tail;
    assert '.' !in tail && '/' !in tail by {
      forall k | 0 <= k < |tail| ensures tail[k] != '.' && tail[k] != '/' {
        assert tail[k] == ext[k + 1];
      }
    }
    ExtExample(stem, tail);
    assert Lower(ext) == ext;
  }

  /** Case does not matter; only the text after the last '.' counts; a
      name that is all extension has one; a name without '.' has none. */
  lemma DetectLangEdgeCases()
    ensures DetectLang("MAIN.GO") == "go"
    ensures DetectLang("archive.tar.md") == "markdown"
    ensures DetectLang(".go") == "go"
    ensures DetectLang("Makefile") == ""
  {
    assert DetectLang("archive.tar.md") == "markdown" by {
      assert "archive.tar" + "." + "md" == "archive.tar.md";
      assert Lower(".md") == ".md" && LangOf(".md") == "markdown";
      LabelOf("archive.tar", "md", ".md", "markdown");
    }
    assert DetectLang(".go") == "go" by {
      assert "" + "." + "go" == ".go";
      assert Lower(".go") == ".go" && LangOf(".go") == "go";
      LabelOf("", "go", ".go", "go");
    }
    assert DetectLang("MAIN.GO") == "go" by {
      assert "MAIN" + "." + "GO" == "MAIN.GO";
      assert Lower(".GO") == ".go" && LangOf(".go") == "go";
      LabelOf("MAIN", "GO", ".go", "go");
    }
    NoDot("Makefile");
  }

  lemma LabelOf(stem: string, ext: string, lowered: string, lang: string)
    requires '.' !in ext && '/' !in ext
    requires Lower("." + ext) == lowered && LangOf(lowered) == lang
    ensures DetectLang(stem + "." + ext) == lang
  {
    ExtExample(stem, ext);
  }

  /** The extension of stem + "." + ext, for an ext without '.' or '/'. */
  lemma {:induction false} ExtExample(stem: string, ext: string)
    requires '.' !in ext && '/' !in ext
    ensures Ext(stem + "." + ext) == "." + ext
    decreases |ext|
  {
    var s := stem + "." + ext;
    if ext == [] {
      assert s[|s| - 1] == '.';
    } else {
      assert s[|s| - 1] == ext[|ext| - 1];
      assert s[..|s| - 1] == stem + "." + ext[..|ext| - 1];
      ExtExample(stem, ext[..|ext| - 1]);
      assert "." + ext[..|ext| - 1] + [ext[|ext| - 1]] == "." + ext;
    }
  }

  /** A name without '.' has no extension. */
  lemma {:induction false} NoDot(s: string)
    requires '.' !in s
    ensures Ext(s) == ""
  {
    if s != [] && s[|s| - 1] != '/' {
      assert '.' !in s[..|s| - 1];
      NoDot(s[..|s| - 1]);
    }
  }
}
