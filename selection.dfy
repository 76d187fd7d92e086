/** An independent account of what filepath.Walk does with main's
    callback: the entries it reaches are those below which every directory
    was entered (listed, and let through by the callback), visited in
    pre-order; the output is the callback's output for each reached entry in
    turn, up to and including the first one that fails. */
module Selection {
  import opened Paths
  import opened Filters
  import opened FileSystem
  import opened Content

  /** An entry the walk reaches, with its absolute path. */
  datatype Entry = Entry(path: Path, node: Node)

  /** The walk lists this directory and the callback lets it through. */
  predicate Enters(n: Node, path: Path, cfg: Config) {
    n.Directory? && Visit(n, path, cfg).signal == Proceed
  }

  /** The entries reached from n at path, in the order they are visited;
      nothing here stops at an error. */
  function Reached(n: Node, path: Path, cfg: Config): (es: seq<Entry>)
    decreases n, 1
    ensures es != [] && es[0] == Entry(path, n)
  {
    [Entry(path, n)] + (if Enters(n, path, cfg) then ReachedFrom(n.children, 0, path, cfg) else [])
  }

  function ReachedFrom(entries: seq<Node>, i: nat, dir: Path, cfg: Config): seq<Entry>
    requires i <= |entries|
    decreases entries, |entries| - i
  {
    if i == |entries| then []
    else Reached(entries[i], dir + [entries[i].name], cfg) + ReachedFrom(entries, i + 1, dir, cfg)
  }

  /** Calling back on each entry in turn, stopping at the first error. */
  function Sequence(es: seq<Entry>, cfg: Config): (s: Step)
    ensures s.signal != SkipDir
  {
    if es == [] then Step([], Proceed)
    else
      var v := Visit(es[0].node, es[0].path, cfg);
      if v.signal == Abort then Step(v.out, Abort)
      else
        var r := Sequence(es[1..], cfg);
        Step(v.out + r.out, r.signal)
  }

  /** m lies at the relative path rel below n, which is at path, and every
      directory on the way down, n included, is entered. */
  predicate Open(n: Node, path: Path, rel: Path, m: Node, cfg: Config)
    decreases |rel|
  {
    if rel == [] then m == n
    else
      Enters(n, path, cfg) &&
      exists j :: 0 <= j < |n.children| && n.children[j].name == rel[0] &&
        Open(n.children[j], path + [rel[0]], rel[1..], m, cfg)
  }

  // ----- the walk is the sequence over the reached entries -----

  lemma {:induction false} SequenceConcat(a: seq<Entry>, b: seq<Entry>, cfg: Config)
    ensures Sequence(a + b, cfg) ==
      (if Sequence(a, cfg).signal == Abort then Sequence(a, cfg)
       else Step(Sequence(a, cfg).out + Sequence(b, cfg).out, Sequence(b, cfg).signal))
  {
    if a == [] {
      assert a + b == b;
    } else {
      assert (a + b)[0] == a[0];
      assert (a + b)[1..] == a[1..] + b;
      var v := Visit(a[0].node, a[0].path, cfg);
      SequenceConcat(a[1..], b, cfg);
      if v.signal != Abort {
        var ra := Sequence(a[1..], cfg);
        var rb := Sequence(b, cfg);
        if ra.signal != Abort {
          assert v.out + (ra.out + rb.out) == (v.out + ra.out) + rb.out;
        }
      }
    }
  }

  /** One entry and what is below it: the walk writes what the sequence
      writes, and fails when it fails (the walk's signal may in addition be
      SkipDir, which the sequence has no use for). */
  lemma {:induction false} WalkNodeIsSequence(n: Node, path: Path, cfg: Config)
    ensures WalkNode(n, path, cfg).out == Sequence(Reached(n, path, cfg), cfg).out
    ensures WalkNode(n, path, cfg).signal == Abort <==> Sequence(Reached(n, path, cfg), cfg).signal == Abort
    decreases n, 1
  {
    var es := Reached(n, path, cfg);
    var v := Visit(n, path, cfg);
    assert es[0] == Entry(path, n);
    if Enters(n, path, cfg) {
      var below := ReachedFrom(n.children, 0, path, cfg);
      WalkFromIsSequence(n.children, 0, path, cfg);
      assert es[1..] == below;
    } else {
      assert es[1..] == [];
      assert v.out + [] == v.out;
    }
  }

  lemma {:induction false} WalkFromIsSequence(entries: seq<Node>, i: nat, dir: Path, cfg: Config)
    requires i <= |entries|
    ensures WalkFrom(entries, i, dir, cfg) == Sequence(ReachedFrom(entries, i, dir, cfg), cfg)
    decreases entries, |entries| - i
  {
    if i < |entries| {
      var p := dir + [entries[i].name];
      var head := Reached(entries[i], p, cfg);
      var tail := ReachedFrom(entries, i + 1, dir, cfg);
      WalkNodeIsSequence(entries[i], p, cfg);
      WalkFromIsSequence(entries, i + 1, dir, cfg);
      SequenceConcat(head, tail, cfg);
    }
  }

  /** filepath.Walk writes the callback's output for the reached entries in
      pre-order, stopping after the first failure, and fails exactly when
      that sequence does. */
  lemma WalkIsSequence(root: Node, cfg: Config)
    ensures Walk(root, cfg) == Sequence(Reached(root, cfg.absRoot, cfg), cfg)
  {
    WalkNodeIsSequence(root, cfg.absRoot, cfg);
  }

  /** The sequence fails exactly when the callback fails on some entry. */
  lemma {:induction false} SequenceAbortIff(es: seq<Entry>, cfg: Config)
    ensures Sequence(es, cfg).signal == Abort <==>
      exists k :: 0 <= k < |es| && Visit(es[k].node, es[k].path, cfg).signal == Abort
  {
    if es != [] {
      SequenceAbortIff(es[1..], cfg);
      assert forall k :: 1 <= k < |es| ==> es[k] == es[1..][k - 1];
    }
  }

  /** The walk fails exactly when it reaches a directory it cannot list or
      a file whose copy into the overview fails. */
  lemma WalkAbortIff(root: Node, cfg: Config)
    ensures var es := Reached(root, cfg.absRoot, cfg);
      Walk(root, cfg).signal == Abort <==>
      exists k :: 0 <= k < |es| && Visit(es[k].node, es[k].path, cfg).signal == Abort
  {
    WalkIsSequence(root, cfg);
    SequenceAbortIff(Reached(root, cfg.absRoot, cfg), cfg);
  }

  // ----- which entries are reached -----

  lemma {:induction false} ReachedFromMember(entries: seq<Node>, i: nat, dir: Path, cfg: Config, e: Entry)
    requires i <= |entries|
    ensures e in ReachedFrom(entries, i, dir, cfg) <==>
      exists j :: i <= j < |entries| && e in Reached(entries[j], dir + [entries[j].name], cfg)
    decreases |entries| - i
  {
    if i < |entries| {
      ReachedFromMember(entries, i + 1, dir, cfg, e);
    }
  }

  /** An entry is reached exactly when it lies below the starting entry
      along a path whose every directory is entered. */
  lemma {:induction false} ReachedIff(n: Node, path: Path, cfg: Config, p: Path, m: Node)
    ensures Entry(p, m) in Reached(n, path, cfg) <==> path <= p && Open(n, path, p[|path|..], m, cfg)
    decreases n
  {
    var es := Reached(n, path, cfg);
    if Entry(p, m) in es {
      if Entry(p, m) == Entry(path, n) {
        assert p[|path|..] == [];
      } else {
        assert Enters(n, path, cfg);
        ReachedFromMember(n.children, 0, path, cfg, Entry(p, m));
        var j :| 0 <= j < |n.children| && Entry(p, m) in Reached(n.children[j], path + [n.children[j].name], cfg);
        var q := path + [n.children[j].name];
        ReachedIff(n.children[j], q, cfg, p, m);
        var rel := p[|path|..];
        assert rel != [] && rel[0] == n.children[j].name && rel[1..] == p[|q|..];
        assert path + [rel[0]] == q;
      }
    }
    if path <= p && Open(n, path, p[|path|..], m, cfg) {
      var rel := p[|path|..];
      if rel == [] {
        assert p == path;
      } else {
        var j :| 0 <= j < |n.children| && n.children[j].name == rel[0] &&
          Open(n.children[j], path + [rel[0]], rel[1..], m, cfg);
        var q := path + [rel[0]];
        assert q <= p && p[|q|..] == rel[1..];
        ReachedIff(n.children[j], q, cfg, p, m);
        ReachedFromMember(n.children, 0, path, cfg, Entry(p, m));
      }
    }
  }
}
