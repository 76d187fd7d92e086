/** An independent account of what printTree shows: the entries it prints
    are those that are not hidden and below which every directory is shown
    and can be listed, in pre-order, each with the prefix and the connector
    its place gives it. The tree's lines are those entries' lines, and its
    counts are the numbers of directories and of files among them. */
module Shown {
  import opened Paths
  import opened FileSystem
  import opened TreeRender

  /** An entry printTree prints: where it is, and the prefix and the isLast
      flag of the call that prints it. */
  datatype Item = Item(path: Path, node: Node, prefix: string, isLast: bool)

  /** printTree goes below this entry: it is shown, and it is a directory
      that can be listed. */
  predicate Descends(n: Node, path: Path, cfg: Config) {
    !HiddenInTree(n, path, cfg) && n.Directory? && n.listable
  }

  /** The entries shown from n at path, in the order their lines appear. */
  function Items(n: Node, path: Path, prefix: string, isLast: bool, cfg: Config): seq<Item>
    decreases n, 1
  {
    if HiddenInTree(n, path, cfg) then []
    else
      var below := if Descends(n, path, cfg) then ItemsFrom(n.children, 0, path, ChildPrefix(prefix, isLast), cfg) else [];
      [Item(path, n, prefix, isLast)] + below
  }

  function ItemsFrom(entries: seq<Node>, i: nat, dir: Path, prefix: string, cfg: Config): seq<Item>
    requires i <= |entries|
    decreases entries, |entries| - i
  {
    if i == |entries| then []
    else Items(entries[i], dir + [entries[i].name], prefix, i == |entries| - 1, cfg) +
         ItemsFrom(entries, i + 1, dir, prefix, cfg)
  }

  /** The line printed for one entry: prefix, connector, name. */
  function LineOf(it: Item): string {
    it.prefix + Connector(it.isLast) + it.node.name
  }

  /** The line of each item, in order. */
  function LinesOf(items: seq<Item>): (r: seq<string>)
    ensures |r| == |items|
  {
    if items == [] then [] else [LineOf(items[0])] + LinesOf(items[1..])
  }

  /** Line k is the line of the k-th item. */
  lemma {:induction false} LinesOfIndex(items: seq<Item>)
    ensures forall k :: 0 <= k < |items| ==> LinesOf(items)[k] == LineOf(items[k])
  {
    if items != [] {
      LinesOfIndex(items[1..]);
      forall k | 1 <= k < |items|
        ensures LinesOf(items)[k] == LineOf(items[k])
      {
        assert LinesOf(items)[k] == LinesOf(items[1..])[k - 1];
        assert items[1..][k - 1] == items[k];
      }
    }
  }

  /** How many of the items are directories. */
  function Directories(items: seq<Item>): (c: nat)
    ensures c <= |items|
  {
    if items == [] then 0 else (if items[0].node.Directory? then 1 else 0) + Directories(items[1..])
  }

  /** How many of the items are files. */
  function Files(items: seq<Item>): (c: nat)
    ensures c + Directories(items) == |items|
  {
    if items == [] then 0 else (if items[0].node.File? then 1 else 0) + Files(items[1..])
  }

  lemma {:induction false} TallyConcat(a: seq<Item>, b: seq<Item>)
    ensures LinesOf(a + b) == LinesOf(a) + LinesOf(b)
    ensures Directories(a + b) == Directories(a) + Directories(b)
    ensures Files(a + b) == Files(a) + Files(b)
  {
    if a == [] {
      assert a + b == b;
    } else {
      assert (a + b)[0] == a[0];
      assert (a + b)[1..] == a[1..] + b;
      TallyConcat(a[1..], b);
    }
  }

  /** printTree on one entry writes exactly the lines of the entries it
      shows, and adds one to the directory count per shown directory and
      one to the file count per shown file. */
  lemma {:induction false} RenderIsShown(n: Node, path: Path, prefix: string, isLast: bool, cfg: Config)
    ensures Render(n, path, prefix, isLast, cfg).lines == LinesOf(Items(n, path, prefix, isLast, cfg))
    ensures Render(n, path, prefix, isLast, cfg).dirs == Directories(Items(n, path, prefix, isLast, cfg))
    ensures Render(n, path, prefix, isLast, cfg).files == Files(Items(n, path, prefix, isLast, cfg))
    decreases n, 1
  {
    var items := Items(n, path, prefix, isLast, cfg);
    if !HiddenInTree(n, path, cfg) {
      var it := [Item(path, n, prefix, isLast)];
      var below := if Descends(n, path, cfg) then ItemsFrom(n.children, 0, path, ChildPrefix(prefix, isLast), cfg) else [];
      if Descends(n, path, cfg) {
        RenderFromIsShown(n.children, 0, path, ChildPrefix(prefix, isLast), cfg);
      }
      assert items == it + below;
      TallyConcat(it, below);
      assert LinesOf(it) == [prefix + Connector(isLast) + n.name];
    }
  }

  /** The loop over a listing writes the lines of the entries it shows and
      adds their counts. */
  lemma {:induction false} RenderFromIsShown(entries: seq<Node>, i: nat, dir: Path, prefix: string, cfg: Config)
    requires i <= |entries|
    ensures RenderFrom(entries, i, dir, prefix, cfg).lines == LinesOf(ItemsFrom(entries, i, dir, prefix, cfg))
    ensures RenderFrom(entries, i, dir, prefix, cfg).dirs == Directories(ItemsFrom(entries, i, dir, prefix, cfg))
    ensures RenderFrom(entries, i, dir, prefix, cfg).files == Files(ItemsFrom(entries, i, dir, prefix, cfg))
    decreases entries, |entries| - i
  {
    if i < |entries| {
      var p := dir + [entries[i].name];
      var head := Items(entries[i], p, prefix, i == |entries| - 1, cfg);
      var tail := ItemsFrom(entries, i + 1, dir, prefix, cfg);
      RenderIsShown(entries[i], p, prefix, i == |entries| - 1, cfg);
      RenderFromIsShown(entries, i + 1, dir, prefix, cfg);
      TallyConcat(head, tail);
    }
  }

  /** m lies at the relative path rel below n, which is at path, and is not
      hidden, and every directory on the way down, n included, is shown and
      can be listed. */
  predicate Visible(n: Node, path: Path, rel: Path, m: Node, cfg: Config)
    decreases |rel|
  {
    if rel == [] then m == n && !HiddenInTree(n, path, cfg)
    else
      Descends(n, path, cfg) &&
      exists j :: 0 <= j < |n.children| && n.children[j].name == rel[0] &&
        Visible(n.children[j], path + [rel[0]], rel[1..], m, cfg)
  }

  /** Some item prints entry m at path p. */
  predicate Prints(items: seq<Item>, p: Path, m: Node) {
    exists k :: 0 <= k < |items| && items[k].path == p && items[k].node == m
  }

  lemma {:induction false} PrintsConcat(a: seq<Item>, b: seq<Item>, p: Path, m: Node)
    ensures Prints(a + b, p, m) <==> Prints(a, p, m) || Prints(b, p, m)
  {
    if Prints(a + b, p, m) {
      var k :| 0 <= k < |a + b| && (a + b)[k].path == p && (a + b)[k].node == m;
      if k < |a| {
        assert a[k] == (a + b)[k];
      } else {
        assert b[k - |a|] == (a + b)[k];
      }
    }
    if Prints(a, p, m) {
      var k :| 0 <= k < |a| && a[k].path == p && a[k].node == m;
      assert (a + b)[k] == a[k];
    }
    if Prints(b, p, m) {
      var k :| 0 <= k < |b| && b[k].path == p && b[k].node == m;
      assert (a + b)[|a| + k] == b[k];
    }
  }

  lemma {:induction false} ItemsFromMember(entries: seq<Node>, i: nat, dir: Path, prefix: string, cfg: Config,
                                           p: Path, m: Node)
    requires i <= |entries|
    ensures Prints(ItemsFrom(entries, i, dir, prefix, cfg), p, m) <==>
      exists j :: i <= j < |entries| && Prints(Items(entries[j], dir + [entries[j].name], prefix, j == |entries| - 1, cfg), p, m)
    decreases |entries| - i
  {
    if i < |entries| {
      PrintsConcat(Items(entries[i], dir + [entries[i].name], prefix, i == |entries| - 1, cfg),
                   ItemsFrom(entries, i + 1, dir, prefix, cfg), p, m);
      ItemsFromMember(entries, i + 1, dir, prefix, cfg, p, m);
    }
  }

  /** printTree prints an entry exactly when it lies below the starting
      entry, is not hidden, and every directory above it is shown and can
      be listed. */
  lemma ShownIff(n: Node, path: Path, prefix: string, isLast: bool, cfg: Config, p: Path, m: Node)
    ensures Prints(Items(n, path, prefix, isLast, cfg), p, m) <==> path <= p && Visible(n, path, p[|path|..], m, cfg)
  {
    if Prints(Items(n, path, prefix, isLast, cfg), p, m) {
      ShownVisible(n, path, prefix, isLast, cfg, p, m);
    }
    if path <= p && Visible(n, path, p[|path|..], m, cfg) {
      VisibleShown(n, path, prefix, isLast, cfg, p, m);
    }
  }

  /** The printed item at the start of an entry's list is the entry itself. */
  lemma ItemsSplit(n: Node, path: Path, prefix: string, isLast: bool, cfg: Config, p: Path, m: Node)
    requires !HiddenInTree(n, path, cfg)
    ensures Prints(Items(n, path, prefix, isLast, cfg), p, m) <==>
      (p == path && m == n) ||
      (Descends(n, path, cfg) && Prints(ItemsFrom(n.children, 0, path, ChildPrefix(prefix, isLast), cfg), p, m))
  {
    var it := [Item(path, n, prefix, isLast)];
    var below := if Descends(n, path, cfg) then ItemsFrom(n.children, 0, path, ChildPrefix(prefix, isLast), cfg) else [];
    assert Items(n, path, prefix, isLast, cfg) == it + below;
    PrintsConcat(it, below, p, m);
    if Prints(it, p, m) {
      var k :| 0 <= k < |it| && it[k].path == p && it[k].node == m;
      assert k == 0;
    }
    if p == path && m == n {
      assert it[0].path == p && it[0].node == m;
    }
  }

  lemma {:induction false} ShownVisible(n: Node, path: Path, prefix: string, isLast: bool, cfg: Config, p: Path, m: Node)
    requires Prints(Items(n, path, prefix, isLast, cfg), p, m)
    ensures path <= p && Visible(n, path, p[|path|..], m, cfg)
    decreases n
  {
    ItemsSplit(n, path, prefix, isLast, cfg, p, m);
    if p == path && m == n {
      assert p[|path|..] == [];
    } else {
      var cp := ChildPrefix(prefix, isLast);
      ItemsFromMember(n.children, 0, path, cp, cfg, p, m);
      var j :| 0 <= j < |n.children| &&
        Prints(Items(n.children[j], path + [n.children[j].name], cp, j == |n.children| - 1, cfg), p, m);
      var q := path + [n.children[j].name];
      ShownVisible(n.children[j], q, cp, j == |n.children| - 1, cfg, p, m);
      var rel := p[|path|..];
      assert rel != [] && rel[0] == n.children[j].name && rel[1..] == p[|q|..];
      assert path + [rel[0]] == q;
    }
  }

  lemma {:induction false} VisibleShown(n: Node, path: Path, prefix: string, isLast: bool, cfg: Config, p: Path, m: Node)
    requires path <= p && Visible(n, path, p[|path|..], m, cfg)
    ensures Prints(Items(n, path, prefix, isLast, cfg), p, m)
    decreases n
  {
    var rel := p[|path|..];
    assert !HiddenInTree(n, path, cfg);
    ItemsSplit(n, path, prefix, isLast, cfg, p, m);
    if rel == [] {
      assert p == path;
    } else {
      assert Descends(n, path, cfg);
      var cp := ChildPrefix(prefix, isLast);
      var j :| 0 <= j < |n.children| && n.children[j].name == rel[0] &&
        Visible(n.children[j], path + [rel[0]], rel[1..], m, cfg);
      var q := path + [n.children[j].name];
      assert q == path + [rel[0]];
      assert q <= p && p[|q|..] == rel[1..];
      VisibleShown(n.children[j], q, cp, j == |n.children| - 1, cfg, p, m);
      ItemsFromMember(n.children, 0, path, cp, cfg, p, m);
      assert Prints(ItemsFrom(n.children, 0, path, cp, cfg), p, m);
    }
  }
}
