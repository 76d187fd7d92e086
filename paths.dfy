/** Paths as the program sees them. A path is the sequence of its segments
    (no segment holds '/'); an absolute path lists its segments from the
    file-system root, a root-relative path those below the walked root. This
    stands for filepath.Join, filepath.Rel, filepath.Base, filepath.Dir and
    filepath.Ext on clean absolute paths with '/' as separator. */
module Paths {

  type Path = seq<string>

  /** A segment as a directory listing returns it: not empty, no separator,
      and neither "." nor "..". */
  predicate IsName(s: string) {
    s != [] && '/' !in s && s != "." && s != ".."
  }

  predicate IsClean(p: Path) {
    forall i :: 0 <= i < |p| ==> IsName(p[i])
  }

  /** The segments joined by '/'. */
  function Join(p: Path): string {
    if p == [] then ""
    else if |p| == 1 then p[0]
    else Join(p[..|p| - 1]) + "/" + p[|p| - 1]
  }

  /** The text filepath.Rel returns for a relative segment sequence: "."
      for the empty one. */
  function RelString(rel: Path): string {
    if rel == [] then "." else Join(rel)
  }

  /** filepath.Base of a relative path: its last segment, "." for the
      empty path. */
  function BaseName(rel: Path): string {
    if rel == [] then "." else rel[|rel| - 1]
  }

  /** filepath.Dir: the path without its last segment (the root for the
      root). */
  function Dir(p: Path): (d: Path)
    ensures |d| == if p == [] then 0 else |p| - 1
    ensures d == p[..|d|]
  {
    if p == [] then [] else p[..|p| - 1]
  }

  function Ups(n: nat): (r: Path)
    ensures |r| == n && forall i :: 0 <= i < n ==> r[i] == ".."
  {
    if n == 0 then [] else Ups(n - 1) + [".."]
  }

  /** filepath.Rel(base, target) for two clean absolute paths: drop the
      common leading segments, climb out of the rest of base with "..",
      then go down the rest of target. */
  function Rel(base: Path, target: Path): Path {
    if base != [] && target != [] && base[0] == target[0] then Rel(base[1..], target[1..])
    else Ups(|base|) + target
  }

  /** Following a relative path from base: ".." climbs one level. */
  function Resolve(base: Path, rel: Path): Path
    decreases |rel|
  {
    if rel == [] then base
    else if rel[0] == ".." then Resolve(Dir(base), rel[1..])
    else Resolve(base + [rel[0]], rel[1..])
  }

  /** Below base, the relative path is the part of target past base. */
  lemma {:induction false} RelBelow(base: Path, rest: Path)
    ensures Rel(base, base + rest) == rest
  {
    if base != [] {
      assert (base + rest)[0] == base[0];
      assert (base + rest)[1..] == base[1..] + rest;
      RelBelow(base[1..], rest);
    } else {
      assert base + rest == rest;
    }
  }

  lemma {:induction false} ResolveDown(base: Path, rest: Path)
    requires IsClean(rest)
    ensures Resolve(base, rest) == base + rest
    decreases |rest|
  {
    if rest != [] {
      assert rest[0] != "..";
      assert IsClean(rest[1..]);
      ResolveDown(base + [rest[0]], rest[1..]);
      assert base + [rest[0]] + rest[1..] == base + rest;
    } else {
      assert base + rest == base;
    }
  }

  lemma {:induction false} ResolveUps(prefix: Path, up: Path, n: nat, rel: Path)
    requires |up| == n
    ensures Resolve(prefix + up, Ups(n) + rel) == Resolve(prefix, rel)
    decreases n
  {
    if n > 0 {
      var u := Ups(n);
      assert u == [".."] + Ups(n - 1) by {
        UpsCons(n);
      }
      assert (Ups(n) + rel)[0] == "..";
      assert (Ups(n) + rel)[1..] == Ups(n - 1) + rel;
      assert Dir(prefix + up) == prefix + up[..n - 1];
      ResolveUps(prefix, up[..n - 1], n - 1, rel);
    } else {
      assert prefix + up == prefix;
      assert Ups(n) + rel == rel;
    }
  }

  lemma {:induction false} UpsCons(n: nat)
    requires n > 0
    ensures Ups(n) == [".."] + Ups(n - 1)
  {
    if n > 1 {
      UpsCons(n - 1);
    }
  }

  /** Rel and Resolve are inverse: following filepath.Rel(base, target)
      from base leads back to target. */
  lemma {:induction false} ResolveRel(base: Path, target: Path)
    requires IsClean(base) && IsClean(target)
    ensures Resolve(base, Rel(base, target)) == target
  {
    ResolveRelFrom([], base, target);
    assert [] + base == base && [] + target == target;
  }

  lemma {:induction false} ResolveRelFrom(common: Path, base: Path, target: Path)
    requires IsClean(base) && IsClean(target)
    ensures Resolve(common + base, Rel(base, target)) == common + target
    decreases |base|
  {
    if base != [] && target != [] && base[0] == target[0] {
      assert IsClean(base[1..]) && IsClean(target[1..]);
      ResolveRelFrom(common + [base[0]], base[1..], target[1..]);
      assert common + [base[0]] + base[1..] == common + base;
      assert common + [base[0]] + target[1..] == common + target;
    } else {
      ResolveUps(common, base, |base|, target);
      ResolveDown(common, target);
    }
  }

  /** filepath.Base of the joined path is the last segment: the text after
      the last separator. */
  lemma {:induction false} JoinEndsWithBase(p: Path)
    requires p != [] && IsClean(p)
    ensures exists head :: Join(p) == head + BaseName(p) && (head == "" || head[|head| - 1] == '/')
    ensures '/' !in BaseName(p)
  {
    if |p| == 1 {
      assert Join(p) == "" + BaseName(p);
    } else {
      var head := Join(p[..|p| - 1]) + "/";
      assert Join(p) == head + BaseName(p);
    }
  }

  /** The joined text holds every segment and a separator between each
      two, so it is at least as long as any segment and as the number of
      separators. */
  lemma {:induction false} JoinLength(p: Path)
    ensures |Join(p)| >= |p| - 1
    ensures forall i :: 0 <= i < |p| ==> |Join(p)| >= |p[i]|
  {
    if |p| > 1 {
      JoinLength(p[..|p| - 1]);
      assert forall i :: 0 <= i < |p| - 1 ==> p[i] == p[..|p| - 1][i];
    }
  }

  /** filepath.Ext: the text from the last '.' of the final element on, or
      "" when the final element has no '.'. */
  function Ext(s: string): string {
    if s == [] || s[|s| - 1] == '/' then ""
    else if s[|s| - 1] == '.' then "."
    else
      var e := Ext(s[..|s| - 1]);
      if e == "" then "" else e + [s[|s| - 1]]
  }

  /** What Ext returns: a suffix that starts at a '.' and holds no other '.'
      and no '/', or "" when no '.' follows the last '/'. */
  lemma {:induction false} ExtIsLastDotSuffix(s: string)
    ensures var r := Ext(s);
      (r == "" || (r[0] == '.' && |r| <= |s| && r == s[|s| - |r|..])) &&
      (forall k :: 1 <= k < |r| ==> r[k] != '.' && r[k] != '/') &&
      (r == "" ==> forall k :: 0 <= k < |s| && s[k] == '.' ==> '/' in s[k + 1..])
  {
    if s != [] && s[|s| - 1] != '/' && s[|s| - 1] != '.' {
      var p := s[..|s| - 1];
      ExtIsLastDotSuffix(p);
      var e := Ext(p);
      if e == "" {
        forall k | 0 <= k < |s| && s[k] == '.'
          ensures '/' in s[k + 1..]
        {
          assert k < |p| && p[k] == '.';
          assert '/' in p[k + 1..];
          var j :| k + 1 <= j < |p| && p[j] == '/';
          assert s[j] == '/';
        }
      } else {
        assert p[|p| - |e|..] + [s[|s| - 1]] == s[|s| - |e| - 1..];
      }
    }
  }

  /** Ext stops at the last separator, so the extension of a path is the
      extension of its final element. */
  lemma {:induction false} ExtOfFinalElement(dir: string, name: string)
    requires '/' !in name
    ensures Ext(dir + "/" + name) == Ext(name)
    decreases |name|
  {
    var s := dir + "/" + name;
    if name == [] {
      assert s[|s| - 1] == '/';
    } else {
      var last := name[|name| - 1];
      assert s[|s| - 1] == last;
      assert s[..|s| - 1] == dir + "/" + name[..|name| - 1];
      ExtOfFinalElement(dir, name[..|name| - 1]);
    }
  }
}
