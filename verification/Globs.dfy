/** scripts/gn/gen_visibility_globs.py: compressing a set of labels, each allowed or not, into
    glob patterns; and scripts/gn/gn_util.py: what such a pattern matches. */
module GlobTree {
  import opened Basics

  type Path = seq<string>

  /** Node: children in insertion order, names distinct. A node that is nobody's label has no value. */
  datatype Tree = Tree(value: Option<bool>, kids: Forest)
  datatype Forest = Nil | Cons(name: string, tree: Tree, rest: Forest)

  const EMPTY := Tree(None, Nil)

  /** The inner loop of update_tree: walk down, creating children, and set the value. */
  function Insert(t: Tree, path: Path, v: bool): Tree
    decreases |path|, 0, t.kids
  {
    if path == [] then t.(value := Some(v)) else t.(kids := InsertKid(t.kids, path[0], path[1..], v))
  }

  function InsertKid(f: Forest, name: string, path: Path, v: bool): Forest
    decreases |path|, 1, f
  {
    match f
    case Nil => Cons(name, Insert(EMPTY, path, v), Nil)
    case Cons(n, t, rest) =>
      if n == name then Cons(n, Insert(t, path, v), rest) else Cons(n, t, InsertKid(rest, name, path, v))
  }

  function Kid(f: Forest, name: string): Option<Tree> {
    match f
    case Nil => None
    case Cons(n, t, rest) => if n == name then Some(t) else Kid(rest, name)
  }

  /** The node at the end of `path`. */
  function At(t: Tree, path: Path): Option<Tree>
    decreases |path|
  {
    if path == [] then Some(t)
    else match Kid(t.kids, path[0])
      case None => None
      case Some(k) => At(k, path[1..])
  }

  predicate IsLeaf(t: Tree, path: Path) { var n := At(t, path); n.Some? && n.value.kids.Nil? }

  function Names(f: Forest): set<string> {
    match f case Nil => {} case Cons(n, _, rest) => {n} + Names(rest)
  }

  ghost predicate WellFormed(t: Tree) { WellFormedKids(t.kids) }

  ghost predicate WellFormedKids(f: Forest) {
    match f
    case Nil => true
    case Cons(n, t, rest) => n !in Names(rest) && WellFormed(t) && WellFormedKids(rest)
  }

  // ------------------------------------------------------------ glob_collect

  /** What glob_collect yields: one label with its value, or a node's path followed by "*". */
  datatype Pattern = Exact(path: Path, allowed: Option<bool>) | Glob(path: Path)

  predicate Allows(y: Pattern) { y.Glob? || y.allowed == Some(true) }

  function Collect(t: Tree, path: Path): seq<Pattern>
    decreases t, 1
  {
    if t.kids.Nil? then [Exact(path, t.value)]
    else
      var items := CollectKids(t.kids, path);
      if forall y :: y in items ==> Allows(y) then [Glob(path)] else items
  }

  function CollectKids(f: Forest, path: Path): seq<Pattern>
    decreases f, 0
  {
    match f
    case Nil => []
    case Cons(n, t, rest) => Collect(t, path + [n]) + CollectKids(rest, path)
  }

  /** A glob stands for everything strictly below its node. */
  predicate Covers(y: Pattern, path: Path) {
    match y
    case Exact(p, _) => p == path
    case Glob(p) => |p| < |path| && path[..|p|] == p
  }

  /** How many of the patterns cover `path`. */
  function CoverCount(ys: seq<Pattern>, path: Path): nat {
    if ys == [] then 0 else (if Covers(ys[0], path) then 1 else 0) + CoverCount(ys[1..], path)
  }

  lemma {:induction false} CoverCountConcat(a: seq<Pattern>, b: seq<Pattern>, path: Path)
    ensures CoverCount(a + b, path) == CoverCount(a, path) + CoverCount(b, path)
  {
    if a == [] {
      assert a + b == b;
    } else {
      assert (a + b)[1..] == a[1..] + b;
      CoverCountConcat(a[1..], b, path);
    }
  }

  lemma {:induction false} CoverCountNone(ys: seq<Pattern>, path: Path)
    requires forall y :: y in ys ==> !Covers(y, path)
    ensures CoverCount(ys, path) == 0
  {
    if ys != [] { CoverCountNone(ys[1..], path); }
  }

  // -------------------------------------------------------------- compression

  predicate Under(path: Path, p: Path) { |path| <= |p| && p[..|path|] == path }

  /** Patterns collected at a node lie at or below it. */
  lemma {:induction false} CollectUnder(t: Tree, path: Path)
    ensures forall y :: y in Collect(t, path) ==> Under(path, y.path)
    ensures Collect(t, path) != []
    decreases t, 1
  {
    if !t.kids.Nil? { CollectKidsUnder(t.kids, path); }
  }

  lemma {:induction false} CollectKidsUnder(f: Forest, path: Path)
    ensures forall y :: y in CollectKids(f, path) ==> Under(path, y.path) && |y.path| > |path| && y.path[|path|] in Names(f)
    ensures f.Cons? ==> CollectKids(f, path) != []
    decreases f, 0
  {
    if f.Cons? {
      CollectUnder(f.tree, path + [f.name]);
      CollectKidsUnder(f.rest, path);
      forall y | y in Collect(f.tree, path + [f.name])
        ensures Under(path, y.path) && |y.path| > |path| && y.path[|path|] == f.name
      {
        assert y.path[..|path|] == (path + [f.name])[..|path|];
        assert y.path[|path|] == (path + [f.name])[|path|];
      }
    }
  }

  /** The subtree below a kid, and every leaf of it, fully allowed. */
  ghost predicate AllAllowed(t: Tree) { forall q :: IsLeaf(t, q) ==> At(t, q).value.value == Some(true) }

  lemma {:induction false} SomeLeaf(t: Tree) returns (q: Path)
    ensures IsLeaf(t, q) && (t.kids.Cons? ==> q != [])
  {
    if t.kids.Nil? {
      q := [];
    } else {
      var r := SomeLeaf(t.kids.tree);
      q := [t.kids.name] + r;
    }
  }

  /** Every leaf is covered by exactly one pattern, and that pattern allows it if and only if the
      leaf is allowed. */
  lemma {:induction false} CollectCovers(t: Tree, path: Path, q: Path)
    requires WellFormed(t) && IsLeaf(t, q)
    ensures CoverCount(Collect(t, path), path + q) == 1
    ensures forall y :: y in Collect(t, path) && Covers(y, path + q) ==> (Allows(y) <==> At(t, q).value.value == Some(true))
    decreases t, 1
  {
    if t.kids.Nil? {
      assert q == [] && path + q == path;
      assert CoverCount([Exact(path, t.value)], path) == 1 + CoverCount([], path);
    } else {
      assert q != [];
      var items := CollectKids(t.kids, path);
      CollectKidsCover(t.kids, path, q);
      if forall y :: y in items ==> Allows(y) {
        assert (path + q)[..|path|] == path;
        assert CoverCount([Glob(path)], path + q) == 1 + CoverCount([], path + q);
        CoverCountPositive(items, path + q);
      }
    }
  }

  lemma {:induction false} CoverCountPositive(ys: seq<Pattern>, path: Path)
    requires CoverCount(ys, path) > 0
    ensures exists y :: y in ys && Covers(y, path)
  {
    if !Covers(ys[0], path) { CoverCountPositive(ys[1..], path); }
  }

  lemma {:induction false} CollectKidsCover(f: Forest, path: Path, q: Path)
    requires WellFormedKids(f) && q != [] && Kid(f, q[0]).Some? && IsLeaf(Kid(f, q[0]).value, q[1..])
    ensures CoverCount(CollectKids(f, path), path + q) == 1
    ensures forall y :: y in CollectKids(f, path) && Covers(y, path + q) ==>
              (Allows(y) <==> At(Kid(f, q[0]).value, q[1..]).value.value == Some(true))
    decreases f, 0
  {
    var first, others := Collect(f.tree, path + [f.name]), CollectKids(f.rest, path);
    CoverCountConcat(first, others, path + q);
    CollectUnder(f.tree, path + [f.name]);
    CollectKidsUnder(f.rest, path);
    if f.name == q[0] {
      assert path + [f.name] + q[1..] == path + q;
      CollectCovers(f.tree, path + [f.name], q[1..]);
      forall y | y in others
        ensures !Covers(y, path + q)
      {
        assert (path + q)[|path|] == q[0];
      }
      CoverCountNone(others, path + q);
    } else {
      CollectKidsCover(f.rest, path, q);
      forall y | y in first
        ensures !Covers(y, path + q)
      {
        assert y.path[|path|] == (path + [f.name])[|path|];
        assert (path + q)[|path|] == q[0];
      }
      CoverCountNone(first, path + q);
    }
  }

  /** Every pattern covers some leaf. */
  lemma {:induction false} CollectHitsLeaf(t: Tree, path: Path, y: Pattern) returns (q: Path)
    requires WellFormed(t) && y in Collect(t, path)
    ensures IsLeaf(t, q) && Covers(y, path + q)
    decreases t, 1
  {
    if t.kids.Nil? {
      q := [];
      assert path + [] == path;
    } else if y == Glob(path) && Collect(t, path) == [Glob(path)] {
      q := SomeLeaf(t);
      assert (path + q)[..|path|] == path;
    } else {
      q := CollectKidsHitLeaf(t.kids, path, y);
    }
  }

  lemma {:induction false} CollectKidsHitLeaf(f: Forest, path: Path, y: Pattern) returns (q: Path)
    requires WellFormedKids(f) && y in CollectKids(f, path)
    ensures q != [] && Kid(f, q[0]).Some? && IsLeaf(Kid(f, q[0]).value, q[1..]) && Covers(y, path + q)
    decreases f, 0
  {
    if y in Collect(f.tree, path + [f.name]) {
      var r := CollectHitsLeaf(f.tree, path + [f.name], y);
      q := [f.name] + r;
      assert path + q == path + [f.name] + r;
    } else {
      q := CollectKidsHitLeaf(f.rest, path, y);
      KidNamed(f.rest, q[0]);
    }
  }

  lemma {:induction false} KidNamed(f: Forest, name: string)
    ensures Kid(f, name).Some? <==> name in Names(f)
  {
    if f.Cons? { KidNamed(f.rest, name); }
  }

  /** A node is compressed into a glob exactly when it has children and everything below is allowed. */
  lemma GlobIffAllAllowed(t: Tree, path: Path)
    requires WellFormed(t)
    ensures Collect(t, path) == [Glob(path)] <==> t.kids.Cons? && AllAllowed(t)
  {
    if t.kids.Cons? {
      var items := CollectKids(t.kids, path);
      if forall y :: y in items ==> Allows(y) {
        forall q | IsLeaf(t, q)
          ensures At(t, q).value.value == Some(true)
        {
          CollectKidsCover(t.kids, path, q);
          CoverCountPositive(items, path + q);
        }
      } else {
        var y :| y in items && !Allows(y);
        var q := CollectKidsHitLeaf(t.kids, path, y);
        CollectKidsCover(t.kids, path, q);
        assert IsLeaf(t, q);
        CollectKidsUnder(t.kids, path);
        assert Glob(path) !in items;
      }
    }
  }

  /** Whether the node at `p` is the topmost one on its path that is fully allowed. */
  ghost predicate Topmost(t: Tree, p: Path) {
    && At(t, p).Some? && At(t, p).value.kids.Cons? && AllAllowed(At(t, p).value)
    && forall k :: 0 <= k < |p| ==> At(t, p[..k]).Some? && !AllAllowed(At(t, p[..k]).value)
  }

  lemma TopmostBelow(t: Tree, p: Path)
    requires p != [] && Kid(t.kids, p[0]).Some?
    ensures Topmost(t, p) <==> !AllAllowed(t) && Topmost(Kid(t.kids, p[0]).value, p[1..])
  {
    var k := Kid(t.kids, p[0]).value;
    assert p[..0] == [] && At(t, []) == Some(t);
    forall i | 0 < i < |p|
      ensures At(t, p[..i]) == At(k, p[1..][..i - 1])
    {
      assert p[..i][0] == p[0] && p[..i][1..] == p[1..][..i - 1];
    }
    assert forall j :: 0 <= j < |p[1..]| ==> At(k, p[1..][..j]) == At(t, p[..j + 1]);
  }

  /** Globs sit at the topmost fully allowed inner nodes, and at all of them. */
  lemma {:induction false} GlobsAreTopmost(t: Tree, path: Path, p: Path)
    requires WellFormed(t)
    ensures Glob(path + p) in Collect(t, path) <==> Topmost(t, p)
    decreases t, 1
  {
    GlobIffAllAllowed(t, path);
    assert p == [] ==> path + p == path;
    assert At(t, p[..0]) == Some(t) by { assert p[..0] == []; }
    if t.kids.Nil? {
    } else if AllAllowed(t) {
      assert path + p == path ==> |p| == 0;
    } else {
      CollectKidsUnder(t.kids, path);
      if p != [] {
        GlobsOfKids(t.kids, path, p);
        if Kid(t.kids, p[0]).Some? { TopmostBelow(t, p); }
      }
    }
  }

  lemma {:induction false} GlobsOfKids(f: Forest, path: Path, p: Path)
    requires WellFormedKids(f) && p != []
    ensures Glob(path + p) in CollectKids(f, path) <==> Kid(f, p[0]).Some? && Topmost(Kid(f, p[0]).value, p[1..])
    decreases f, 0
  {
    if f.Cons? {
      GlobsOfKids(f.rest, path, p);
      CollectKidsUnder(f.rest, path);
      CollectUnder(f.tree, path + [f.name]);
      KidNamed(f.rest, p[0]);
      assert (path + p)[|path|] == p[0] && (path + [f.name])[|path|] == f.name;
      if f.name == p[0] {
        assert path + [f.name] + p[1..] == path + p;
        GlobsAreTopmost(f.tree, path + [f.name], p[1..]);
      } else {
        assert (path + p)[..|path| + 1][|path|] == p[0];
        assert !Under(path + [f.name], path + p);
      }
    }
  }

  // ---------------------------------------------------------- building the tree

  /** update_tree on label paths. */
  function UpdateTree(t: Tree, labels: seq<Path>, v: bool): Tree
    decreases |labels|
  {
    if labels == [] then t else Insert(UpdateTree(t, labels[..|labels| - 1], v), labels[|labels| - 1], v)
  }

  /** main: first every label of the universe as denied, then the allowed ones. */
  function Build(all: seq<Path>, allow: seq<Path>): Tree {
    UpdateTree(UpdateTree(EMPTY, all, false), allow, true)
  }

  lemma {:induction false} InsertWellFormed(t: Tree, path: Path, v: bool)
    requires WellFormed(t)
    ensures WellFormed(Insert(t, path, v))
    decreases |path|, 0, t.kids
  {
    if path != [] { InsertKidWellFormed(t.kids, path[0], path[1..], v); }
  }

  lemma {:induction false} InsertKidWellFormed(f: Forest, name: string, path: Path, v: bool)
    requires WellFormedKids(f)
    ensures WellFormedKids(InsertKid(f, name, path, v)) && Names(InsertKid(f, name, path, v)) == Names(f) + {name}
    decreases |path|, 1, f
  {
    match f
    case Nil => InsertWellFormed(EMPTY, path, v);
    case Cons(n, t, rest) =>
      if n == name { InsertWellFormed(t, path, v); } else { InsertKidWellFormed(rest, name, path, v); }
  }

  lemma {:induction false} InsertKidAt(f: Forest, name: string, path: Path, v: bool, n: string)
    ensures Kid(InsertKid(f, name, path, v), n) ==
            if n == name then Some(Insert(if Kid(f, name).Some? then Kid(f, name).value else EMPTY, path, v)) else Kid(f, n)
    decreases f
  {
    if f.Cons? && f.name != name { InsertKidAt(f.rest, name, path, v, n); }
  }

  function ValueAt(t: Tree, q: Path): Option<bool> {
    var n := At(t, q); if n.Some? then n.value.value else None
  }

  /** Inserting a label adds the nodes on its path and changes the value at its end only. */
  lemma {:induction false} InsertAt(t: Tree, path: Path, v: bool, q: Path)
    ensures At(Insert(t, path, v), q).Some? <==> At(t, q).Some? || Under(q, path)
    ensures ValueAt(Insert(t, path, v), q) == if q == path then Some(v) else ValueAt(t, q)
    decreases |q|
  {
    if q != [] && path != [] {
      InsertKidAt(t.kids, path[0], path[1..], v, q[0]);
      if q[0] == path[0] {
        var k := if Kid(t.kids, path[0]).Some? then Kid(t.kids, path[0]).value else EMPTY;
        InsertAt(k, path[1..], v, q[1..]);
        UnderTail(q, path);
        assert q == [q[0]] + q[1..] && path == [path[0]] + path[1..];
      }
    }
  }

  lemma UnderTail(q: Path, path: Path)
    requires q != [] && path != [] && q[0] == path[0]
    ensures Under(q, path) <==> Under(q[1..], path[1..])
  {
    if |q| <= |path| {
      assert path[..|q|] == [path[0]] + path[1..][..|q| - 1];
      assert q == [q[0]] + q[1..];
    }
  }

  lemma {:induction false} UpdateAt(t: Tree, labels: seq<Path>, v: bool, q: Path)
    requires WellFormed(t)
    ensures WellFormed(UpdateTree(t, labels, v))
    ensures At(UpdateTree(t, labels, v), q).Some? <==> At(t, q).Some? || exists l :: l in labels && Under(q, l)
    ensures ValueAt(UpdateTree(t, labels, v), q) == if q in labels then Some(v) else ValueAt(t, q)
    decreases |labels|
  {
    if labels != [] {
      var front, last := labels[..|labels| - 1], labels[|labels| - 1];
      UpdateAt(t, front, v, q);
      InsertWellFormed(UpdateTree(t, front, v), last, v);
      InsertAt(UpdateTree(t, front, v), last, v, q);
      assert labels == front + [last];
    }
  }

  ghost predicate InTree(all: seq<Path>, allow: seq<Path>, q: Path) {
    exists l :: (l in all || l in allow) && Under(q, l)
  }

  /** The nodes and values of the tree main builds. */
  lemma BuildAt(all: seq<Path>, allow: seq<Path>, q: Path)
    ensures WellFormed(Build(all, allow))
    ensures At(Build(all, allow), q).Some? <==> q == [] || InTree(all, allow, q)
    ensures ValueAt(Build(all, allow), q) == if q in allow then Some(true) else if q in all then Some(false) else None
  {
    UpdateAt(EMPTY, all, false, q);
    UpdateAt(UpdateTree(EMPTY, all, false), allow, true, q);
  }

  lemma {:induction false} LeafIff(t: Tree, q: Path)
    ensures IsLeaf(t, q) <==> At(t, q).Some? && forall n :: At(t, q + [n]).None?
    decreases |q|
  {
    if q == [] {
      forall n
        ensures At(t, [] + [n]) == Kid(t.kids, n)
      {
        assert ([] + [n])[0] == n && ([] + [n])[1..] == [];
      }
      if t.kids.Cons? { assert At(t, q + [t.kids.name]).Some?; }
    } else if Kid(t.kids, q[0]).Some? {
      var k := Kid(t.kids, q[0]).value;
      LeafIff(k, q[1..]);
      assert forall n :: (q + [n])[0] == q[0] && (q + [n])[1..] == q[1..] + [n];
    }
  }

  lemma {:induction false} AtConcat(t: Tree, a: Path, b: Path)
    requires At(t, a).Some?
    ensures At(t, a + b) == At(At(t, a).value, b)
    decreases |a|
  {
    if a == [] {
      assert a + b == b;
    } else {
      assert (a + b)[0] == a[0] && (a + b)[1..] == a[1..] + b;
      AtConcat(Kid(t.kids, a[0]).value, a[1..], b);
    }
  }

  /** The nodes on the way to a node. */
  lemma AtPrefix(t: Tree, d: Path, i: nat)
    requires At(t, d).Some? && i <= |d|
    ensures At(t, d[..i]).Some? && (i < |d| ==> At(t, d[..i]).value.kids.Cons?)
    decreases |d|
  {
    if i > 0 {
      assert d[..i][0] == d[0] && d[..i][1..] == d[1..][..i - 1];
      AtPrefix(Kid(t.kids, d[0]).value, d[1..], i - 1);
    }
  }

  // ------------------------------------------------------ when meaning is preserved

  ghost predicate PrefixFree(labels: seq<Path>) {
    forall a, b :: a in labels && b in labels && Under(a, b) ==> a == b
  }

  const ROOT: Path := ["/"]

  function Yielded(all: seq<Path>, allow: seq<Path>): seq<Pattern> { Collect(Build(all, allow), ROOT) }

  /** The patterns that main prints admit exactly the allowed labels. */
  ghost predicate Preserved(all: seq<Path>, allow: seq<Path>) {
    forall l :: l in all ==>
      ((exists y :: y in Yielded(all, allow) && Allows(y) && Covers(y, ROOT + l)) <==> l in allow)
  }

  ghost predicate Within(allow: seq<Path>, all: seq<Path>) { forall l :: l in allow ==> l in all }

  /** With prefix-free labels the leaves are the labels. */
  lemma LabelsAreLeaves(all: seq<Path>, allow: seq<Path>, l: Path)
    requires PrefixFree(all + allow) && l in all + allow
    ensures IsLeaf(Build(all, allow), l)
  {
    var t := Build(all, allow);
    BuildAt(all, allow, l);
    assert Under(l, l);
    forall n
      ensures At(t, l + [n]).None?
    {
      BuildAt(all, allow, l + [n]);
      if x :| (x in all || x in allow) && Under(l + [n], x) {
        assert x[..|l|] == (l + [n])[..|l|] == l;
        assert x in all + allow && Under(l, x);
      }
    }
    LeafIff(t, l);
  }

  /** Leaves are always labels, unless there are none. */
  lemma LeavesAreLabels(all: seq<Path>, allow: seq<Path>, q: Path)
    requires all + allow != [] && (forall l :: l in all + allow ==> l != []) && IsLeaf(Build(all, allow), q)
    ensures q in all + allow
  {
    var t := Build(all, allow);
    LeafIff(t, q);
    BuildAt(all, allow, q);
    var some := (all + allow)[0];
    assert some in all + allow && (q == [] ==> Under(q, some));
    var l :| l in all + allow && Under(q, l);
    assert |q| == |l| ==> l[..|q|] == l;
    if |q| < |l| {
      assert l[..|q| + 1] == q + [l[|q|]];
      BuildAt(all, allow, q + [l[|q|]]);
      assert Under(q + [l[|q|]], l);
    }
  }

  /** Each label of a prefix-free universe is covered by exactly one pattern, which allows it if and
      only if it is to be allowed. */
  lemma CompressionIsExact(all: seq<Path>, allow: seq<Path>, l: Path)
    requires PrefixFree(all + allow) && l in all + allow
    ensures CoverCount(Yielded(all, allow), ROOT + l) == 1
    ensures forall y :: y in Yielded(all, allow) && Covers(y, ROOT + l) ==> (Allows(y) <==> l in allow)
  {
    BuildAt(all, allow, l);
    LabelsAreLeaves(all, allow, l);
    CollectCovers(Build(all, allow), ROOT, l);
  }

  // ----------------------------------------------- which labels end up under a glob

  /** Everything at or below `d` is to be allowed. */
  ghost predicate AllBelowAllowed(all: seq<Path>, allow: seq<Path>, d: Path) {
    forall k :: k in all + allow && Under(d, k) ==> k in allow
  }

  ghost predicate Nonempty(labels: seq<Path>) { forall l :: l in labels ==> l != [] }

  /** A node is fully allowed exactly if all labels at or below it are. */
  lemma NodeAllowedIff(all: seq<Path>, allow: seq<Path>, d: Path)
    requires PrefixFree(all + allow) && Nonempty(all + allow) && all + allow != [] && At(Build(all, allow), d).Some?
    ensures AllAllowed(At(Build(all, allow), d).value) <==> AllBelowAllowed(all, allow, d)
  {
    var t := Build(all, allow);
    var n := At(t, d).value;
    if AllAllowed(n) {
      forall k | k in all + allow && Under(d, k)
        ensures k in allow
      {
        var q := k[|d|..];
        assert k == d + q;
        LabelsAreLeaves(all, allow, k);
        AtConcat(t, d, q);
        assert IsLeaf(n, q);
        BuildAt(all, allow, k);
      }
    }
    if AllBelowAllowed(all, allow, d) {
      forall q | IsLeaf(n, q)
        ensures At(n, q).value.value == Some(true)
      {
        AtConcat(t, d, q);
        LeavesAreLabels(all, allow, d + q);
        assert (d + q)[..|d|] == d;
        BuildAt(all, allow, d + q);
      }
    }
  }

  /** On the way to a fully allowed inner node there is a topmost one. */
  lemma {:induction false} FindTopmost(t: Tree, d: Path, n: nat) returns (j: nat)
    requires At(t, d).Some? && At(t, d).value.kids.Cons? && n <= |d|
    requires At(t, d[..n]).Some? && AllAllowed(At(t, d[..n]).value)
    ensures j <= n && Topmost(t, d[..j])
    decreases n
  {
    forall i | 0 <= i <= |d| { AtPrefix(t, d, i); }
    if i: nat :| i < n && AllAllowed(At(t, d[..i]).value) {
      j := FindTopmost(t, d, i);
    } else {
      j := n;
      assert n == |d| ==> d[..n] == d;
      forall k | 0 <= k < n
        ensures At(t, d[..n][..k]).Some? && !AllAllowed(At(t, d[..n][..k]).value)
      {
        assert d[..n][..k] == d[..k];
      }
    }
  }

  ghost predicate UnderGlob(ys: seq<Pattern>, path: Path) { exists y :: y in ys && y.Glob? && Covers(y, path) }

  /** A label of a prefix-free universe ends up under a glob if and only if everything in or below its
      directory is to be allowed. */
  lemma UnderGlobIff(all: seq<Path>, allow: seq<Path>, d: Path, name: string)
    requires PrefixFree(all + allow) && Nonempty(all + allow) && d + [name] in all + allow
    ensures UnderGlob(Yielded(all, allow), ROOT + (d + [name])) <==> AllBelowAllowed(all, allow, d)
  {
    var t, l, ys := Build(all, allow), d + [name], Yielded(all, allow);
    DirectoryNode(all, allow, d, name);
    if UnderGlob(ys, ROOT + l) {
      var y :| y in ys && y.Glob? && Covers(y, ROOT + l);
      var p := GlobAt(all, allow, y);
      assert (ROOT + l)[..|ROOT + p|] == ROOT + l[..|p|];
      assert (ROOT + p)[1..] == p && (ROOT + l[..|p|])[1..] == l[..|p|];
      assert l[..|p|] == d[..|p|];
      NodeAllowedIff(all, allow, p);
      UnderUnder(p, d, all + allow);
    }
    if AllBelowAllowed(all, allow, d) {
      NodeAllowedIff(all, allow, d);
      assert d[..|d|] == d;
      var j := FindTopmost(t, d, |d|);
      GlobsAreTopmost(t, ROOT, d[..j]);
      assert (ROOT + l)[..|ROOT| + j] == ROOT + d[..j];
      assert Covers(Glob(ROOT + d[..j]), ROOT + l);
    }
  }

  lemma DirectoryNode(all: seq<Path>, allow: seq<Path>, d: Path, name: string)
    requires d + [name] in all + allow
    ensures WellFormed(Build(all, allow))
    ensures At(Build(all, allow), d).Some? && At(Build(all, allow), d).value.kids.Cons?
  {
    var l := d + [name];
    BuildAt(all, allow, l);
    assert Under(l, l);
    AtPrefix(Build(all, allow), l, |d|);
    assert l[..|d|] == d;
  }

  /** Every yielded glob sits at a topmost node. */
  lemma GlobAt(all: seq<Path>, allow: seq<Path>, y: Pattern) returns (p: Path)
    requires y in Yielded(all, allow) && y.Glob?
    ensures y.path == ROOT + p && Topmost(Build(all, allow), p)
  {
    var t := Build(all, allow);
    BuildAt(all, allow, []);
    CollectUnder(t, ROOT);
    p := y.path[1..];
    assert y.path == ROOT + p;
    GlobsAreTopmost(t, ROOT, p);
  }

  lemma UnderUnder(p: Path, d: Path, labels: seq<Path>)
    requires Under(p, d)
    ensures forall k :: k in labels && Under(d, k) ==> Under(p, k)
  {
    forall k | k in labels && Under(d, k)
      ensures Under(p, k)
    {
      assert k[..|p|] == k[..|d|][..|p|];
    }
  }

  /** Compression preserves the meaning of every allowlist over a universe of labels if and only if no
      label's path is a proper prefix of another's (as //a:b and //a/b:c would be). */
  lemma PreservedIffPrefixFree(all: seq<Path>)
    requires forall l :: l in all ==> l != []
    ensures PrefixFree(all) <==> forall allow :: Within(allow, all) ==> Preserved(all, allow)
  {
    if PrefixFree(all) {
      forall allow | Within(allow, all)
        ensures Preserved(all, allow)
      {
        forall l | l in all
          ensures (exists y :: y in Yielded(all, allow) && Allows(y) && Covers(y, ROOT + l)) <==> l in allow
        {
          CompressionIsExact(all, allow, l);
          CoverCountPositive(Yielded(all, allow), ROOT + l);
        }
      }
    } else {
      var a, b :| a in all && b in all && Under(a, b) && a != b;
      var allow := Without(all, a);
      InnerLabelLost(all, allow, a, b);
      assert Within(allow, all) && !Preserved(all, allow);
    }
  }

  function Without(labels: seq<Path>, a: Path): (r: seq<Path>)
    ensures forall l :: l in r <==> l in labels && l != a
  {
    if labels == [] then [] else (if labels[0] == a then [] else [labels[0]]) + Without(labels[1..], a)
  }

  /** A denied label on the way to allowed ones is swallowed by a glob. */
  lemma InnerLabelLost(all: seq<Path>, allow: seq<Path>, a: Path, b: Path)
    requires forall l :: l in all ==> l != []
    requires a in all && b in all && Under(a, b) && a != b
    requires forall l :: l in allow <==> l in all && l != a
    ensures !Preserved(all, allow)
  {
    var t := Build(all, allow);
    BuildAt(all, allow, []);
    forall q | IsLeaf(t, q)
      ensures At(t, q).value.value == Some(true)
    {
      LeavesAreLabels(all, allow, q);
      BuildAt(all, allow, q);
      if q == a {
        assert b[..|a| + 1] == a + [b[|a|]];
        BuildAt(all, allow, a + [b[|a|]]);
        assert Under(a + [b[|a|]], b);
        LeafIff(t, a);
      }
    }
    assert t.kids.Cons? by {
      BuildAt(all, allow, [a[0]]);
      assert Under([a[0]], a);
      assert At(t, [a[0]]).Some?;
    }
    GlobIffAllAllowed(t, ROOT);
    assert Glob(ROOT) in Yielded(all, allow);
    assert (ROOT + a)[..|ROOT|] == ROOT;
    assert Covers(Glob(ROOT), ROOT + a) && Allows(Glob(ROOT));
  }
}

/** Labels and patterns as the strings the scripts handle. */
module GlobLabels {
  import opened Basics
  import opened Text
  import opened GlobTree

  /** //dirs:name, as its directory components and its name. The root directory is [""]. */
  datatype Label = Label(dirs: seq<string>, name: string)

  predicate PlainPart(s: string) { '/' !in s && ':' !in s && s != "*" }

  ghost predicate Plain(l: Label) {
    l.dirs != [] && (forall d :: d in l.dirs ==> PlainPart(d)) && PlainPart(l.name)
  }

  function Spell(l: Label): string
    requires l.dirs != []
  {
    "//" + Join(l.dirs, '/') + ":" + l.name
  }

  function Parts(l: Label): Path { l.dirs + [l.name] }

  function ReplaceColons(s: string): string {
    if s == "" then "" else [if s[0] == ':' then '/' else s[0]] + ReplaceColons(s[1..])
  }

  /** get_label_parts */
  function GetLabelParts(s: string): Path {
    Split(ReplaceColons(if |s| < 2 then "" else s[2..]), '/')
  }

  lemma {:induction false} ReplaceColonsConcat(a: string, b: string)
    ensures ReplaceColons(a + b) == ReplaceColons(a) + ReplaceColons(b)
    decreases |a|
  {
    if a == "" {
      assert a + b == b;
    } else {
      assert (a + b)[0] == a[0] && (a + b)[1..] == a[1..] + b;
      ReplaceColonsConcat(a[1..], b);
    }
  }

  lemma {:induction false} ReplaceNothing(a: string)
    requires ':' !in a
    ensures ReplaceColons(a) == a
  {
    if a != "" { ReplaceNothing(a[1..]); }
  }

  lemma {:induction false} NoColonInJoin(parts: seq<string>)
    requires parts != [] && forall p :: p in parts ==> ':' !in p
    ensures ':' !in Join(parts, '/')
    decreases |parts|
  {
    if |parts| > 1 { NoColonInJoin(parts[1..]); } else { assert parts[0] in parts; }
  }

  /** The parts of a spelled label are its directories and its name. */
  lemma PartsOfSpelling(l: Label)
    requires Plain(l)
    ensures GetLabelParts(Spell(l)) == Parts(l)
  {
    var d := Join(l.dirs, '/');
    assert Spell(l)[2..] == d + (":" + l.name);
    ReplaceColonsConcat(d, ":" + l.name);
    NoColonInJoin(l.dirs);
    ReplaceNothing(d);
    ReplaceColonsConcat(":", l.name);
    assert ReplaceColons(":") == "/";
    ReplaceNothing(l.name);
    assert d + ("/" + l.name) == d + ['/'] + l.name;
    JoinSnoc(l.dirs, l.name, '/');
    SplitJoin(Parts(l), '/');
  }

  /** update_tree on label strings. */
  method UpdateTreeFromLabels(tree: Tree, labels: seq<string>, v: bool) returns (t: Tree)
    ensures t == UpdateTree(tree, seq(|labels|, i requires 0 <= i < |labels| => GetLabelParts(labels[i])), v)
  {
    t := tree;
    ghost var paths := seq(|labels|, i requires 0 <= i < |labels| => GetLabelParts(labels[i]));
    for i := 0 to |labels|
      invariant t == UpdateTree(tree, paths[..i], v)
    {
      t := Insert(t, GetLabelParts(labels[i]), v);
      assert paths[..i + 1][..i] == paths[..i];
    }
    assert paths[..|labels|] == paths;
  }

  // ------------------------------------------------------------- is_visible_to

  /** str.partition(":"): before and after the first colon. */
  function Partition(s: string): (string, string) {
    var i := Find(s, ':'); if i == |s| then (s, "") else (s[..i], s[i + 1..])
  }

  /** The comparison of directory components by zip_longest: None means that they ran out together. */
  function MatchDirs(target: seq<string>, visibility: seq<string>): Option<bool>
    decreases |visibility|
  {
    if visibility == [] then (if target == [] then None else Some(false))
    else if visibility[0] == "*" then Some(true)
    else if target == [] || target[0] != visibility[0] then Some(false)
    else MatchDirs(target[1..], visibility[1..])
  }

  predicate IsVisibleTo(target: string, visibility: string) {
    var (targetDirs, targetLabel) := Partition(target);
    var (visibilityDirs, visibilityLabel) := Partition(visibility);
    match MatchDirs(Split(targetDirs, '/'), Split(visibilityDirs, '/'))
    case Some(b) => b
    case None => visibilityLabel == "*" || targetLabel == visibilityLabel
  }

  /** "/".join of a yielded path, whose first component is the root's name. */
  function SpellPath(p: Path): string
    requires p != []
  {
    Join(p, '/')
  }

  lemma PartitionLabel(l: Label)
    requires l.dirs != [] && forall d :: d in l.dirs ==> PlainPart(d)
    ensures Partition(Spell(l)) == ("//" + Join(l.dirs, '/'), l.name)
    ensures Split("//" + Join(l.dirs, '/'), '/') == ["", ""] + l.dirs
  {
    var d := Join(l.dirs, '/');
    NoColonInJoin(l.dirs);
    FindSkips("//" + d, ':', l.name);
    assert Spell(l) == ("//" + d) + [':'] + l.name;
    assert Spell(l)[..2 + |d|] == "//" + d && Spell(l)[2 + |d| + 1..] == l.name;
    assert ["", ""] + l.dirs == [""] + ([""] + l.dirs);
    assert Join([""] + l.dirs, '/') == "" + ['/'] + Join(l.dirs, '/') by { assert ([""] + l.dirs)[1..] == l.dirs; }
    assert Join(["", ""] + l.dirs, '/') == "" + ['/'] + Join([""] + l.dirs, '/') by { assert (["", ""] + l.dirs)[1..] == [""] + l.dirs; }
    assert "//" + d == "" + ['/'] + ("" + ['/'] + d);
    SplitJoin(["", ""] + l.dirs, '/');
  }

  /** A yielded path spelled out, and taken apart again by the matcher. */
  lemma PartitionPattern(p: Path)
    requires p != [] && forall d :: d in p ==> '/' !in d && ':' !in d
    ensures Partition(SpellPath(ROOT + p)) == (SpellPath(ROOT + p), "")
    ensures Split(SpellPath(ROOT + p), '/') == ["", ""] + p
  {
    var s := SpellPath(ROOT + p);
    assert (ROOT + p)[1..] == p;
    assert s == "/" + ['/'] + Join(p, '/');
    NoColonInJoin(p);
    assert Find(s, ':') == |s|;
    assert ["", ""] + p == [""] + ([""] + p);
    assert Join([""] + p, '/') == "" + ['/'] + Join(p, '/') by { assert ([""] + p)[1..] == p; }
    assert Join(["", ""] + p, '/') == "" + ['/'] + Join([""] + p, '/') by { assert (["", ""] + p)[1..] == [""] + p; }
    assert s == "" + ['/'] + ("" + ['/'] + Join(p, '/'));
    SplitJoin(["", ""] + p, '/');
  }

  lemma {:induction false} MatchGlob(dirs: seq<string>, p: Path)
    requires "*" !in p
    ensures MatchDirs(dirs, p + ["*"]) == Some(Under(p, dirs))
    decreases |p|
  {
    if p == [] {
      assert p + ["*"] == ["*"];
    } else {
      assert (p + ["*"])[0] == p[0] && (p + ["*"])[1..] == p[1..] + ["*"];
      if dirs != [] && dirs[0] == p[0] {
        MatchGlob(dirs[1..], p[1..]);
        UnderTail(p, dirs);
      }
    }
  }

  /** Without a "*", directories match only themselves. */
  lemma {:induction false} MatchPlain(dirs: seq<string>, p: Path)
    requires "*" !in p
    ensures MatchDirs(dirs, p) == if dirs == p then None else Some(false)
    decreases |p|
  {
    if p != [] && dirs != [] && dirs[0] == p[0] {
      MatchPlain(dirs[1..], p[1..]);
      assert dirs == [dirs[0]] + dirs[1..] && p == [p[0]] + p[1..];
    }
  }

  /** A printed glob matches, in the sense of is_visible_to, exactly the labels below its node. */
  lemma GlobMatchesWhatItCovers(l: Label, p: Path)
    requires Plain(l) && forall d :: d in p ==> PlainPart(d)
    ensures IsVisibleTo(Spell(l), SpellPath(ROOT + p + ["*"])) <==> Covers(Glob(ROOT + p), ROOT + Parts(l))
  {
    PartitionLabel(l);
    assert ROOT + p + ["*"] == ROOT + (p + ["*"]);
    PartitionPattern(p + ["*"]);
    assert ["", ""] + (p + ["*"]) == (["", ""] + p) + ["*"];
    MatchGlob(["", ""] + l.dirs, ["", ""] + p);
    UnderShift(["", ""], p, l.dirs);
    UnderShift(ROOT, p, Parts(l));
    if |p| <= |l.dirs| { assert Parts(l)[..|p|] == l.dirs[..|p|]; }
  }

  /** A line //dirs:name makes visible that label only, and a line //dirs:* the labels of that directory. */
  lemma LabelLineMatches(k: Label, l: Label)
    requires Plain(k) && l.dirs != [] && forall d :: d in l.dirs ==> PlainPart(d)
    ensures IsVisibleTo(Spell(k), Spell(l)) <==> k.dirs == l.dirs && (l.name == "*" || k.name == l.name)
  {
    PartitionLabel(k);
    PartitionLabel(l);
    MatchPlain(["", ""] + k.dirs, ["", ""] + l.dirs);
    assert (["", ""] + k.dirs)[2..] == k.dirs && (["", ""] + l.dirs)[2..] == l.dirs;
  }

  lemma UnderShift(a: Path, p: Path, q: Path)
    ensures Under(a + p, a + q) <==> Under(p, q)
  {
    if |p| <= |q| { assert (a + q)[..|a + p|] == a + q[..|p|]; }
    if Under(a + p, a + q) {
      assert (a + q)[..|a + p|][|a|..] == q[..|p|];
      assert (a + p)[|a|..] == p;
    }
  }

  /** A label printed uncompressed loses its colon. Its line then makes visible only a label with an empty
      name in the directory that the line now spells, and in particular not itself. */
  lemma ExactLineMatches(k: Label, l: Label)
    requires Plain(k) && Plain(l)
    ensures IsVisibleTo(Spell(k), SpellPath(ROOT + Parts(l))) <==> k.dirs == Parts(l) && k.name == ""
  {
    PartitionLabel(k);
    PartitionPattern(Parts(l));
    MatchPlain(["", ""] + k.dirs, ["", ""] + Parts(l));
    assert (["", ""] + k.dirs)[2..] == k.dirs && (["", ""] + Parts(l))[2..] == Parts(l);
  }

  function PathsOf(labels: seq<Label>): (r: seq<Path>)
    ensures |r| == |labels| && forall i :: 0 <= i < |r| ==> r[i] == Parts(labels[i])
  {
    seq(|labels|, i requires 0 <= i < |labels| => Parts(labels[i]))
  }

  /** Nodes of the tree are named by parts of labels. */
  lemma NodePartsPlain(all: seq<Label>, allow: seq<Label>, p: Path)
    requires forall l :: l in all + allow ==> Plain(l)
    requires At(Build(PathsOf(all), PathsOf(allow)), p).Some?
    ensures forall d :: d in p ==> PlainPart(d)
  {
    BuildAt(PathsOf(all), PathsOf(allow), p);
    if p != [] {
      var x :| (x in PathsOf(all) || x in PathsOf(allow)) && Under(p, x);
      var l :| l in all + allow && Parts(l) == x;
      assert forall d :: d in x ==> PlainPart(d);
      assert forall d :: d in p ==> d in x[..|p|];
    }
  }

  lemma PathsOfConcat(all: seq<Label>, allow: seq<Label>)
    ensures PathsOf(all + allow) == PathsOf(all) + PathsOf(allow)
  {
  }

  lemma PathOfMember(labels: seq<Label>, l: Label)
    requires l in labels
    ensures Parts(l) in PathsOf(labels)
  {
    var i :| 0 <= i < |labels| && labels[i] == l;
    assert PathsOf(labels)[i] == Parts(l);
  }

  lemma YieldedGlobMatches(all: seq<Label>, allow: seq<Label>, l: Label, y: Pattern)
    requires (forall k :: k in all + allow ==> Plain(k)) && Plain(l)
    requires y in Yielded(PathsOf(all), PathsOf(allow)) && y.Glob?
    ensures IsVisibleTo(Spell(l), Line(y)) <==> Covers(y, ROOT + Parts(l))
  {
    var p := GlobAt(PathsOf(all), PathsOf(allow), y);
    NodePartsPlain(all, allow, p);
    GlobMatchesWhatItCovers(l, p);
  }

  /** What main prints for a pattern. */
  function Line(y: Pattern): string
    requires y.Exact? ==> y.path != []
  {
    SpellPath(if y.Glob? then y.path + ["*"] else y.path)
  }

  /** Some printed line makes `l` visible. */
  ghost predicate SeenByLine(ys: seq<Pattern>, l: Label)
    requires l.dirs != []
  {
    exists y :: y in ys && Allows(y) && y.path != [] && IsVisibleTo(Spell(l), Line(y))
  }

  /** An uncompressed pattern is that of a label. */
  lemma ExactIsLabel(all: seq<Label>, allow: seq<Label>, y: Pattern) returns (own: Label)
    requires all + allow != [] && y in Yielded(PathsOf(all), PathsOf(allow)) && y.Exact?
    ensures own in all + allow && y.path == ROOT + Parts(own) && Parts(own) in PathsOf(all + allow)
  {
    BuildAt(PathsOf(all), PathsOf(allow), []);
    var q := CollectHitsLeaf(Build(PathsOf(all), PathsOf(allow)), ROOT, y);
    PathsOfConcat(all, allow);
    PathOfMember(all + allow, (all + allow)[0]);
    NonemptyPaths(all + allow);
    LeavesAreLabels(PathsOf(all), PathsOf(allow), q);
    own :| own in all + allow && Parts(own) == q;
  }

  /** The line of an uncompressed label shows no label of a prefix-free universe. */
  lemma ExactLineShowsNone(all: seq<Label>, allow: seq<Label>, l: Label, y: Pattern)
    requires (forall k :: k in all + allow ==> Plain(k)) && PrefixFree(PathsOf(all + allow))
    requires l in all + allow && Plain(l)
    requires y in Yielded(PathsOf(all), PathsOf(allow)) && y.Exact? && y.path != []
    ensures !IsVisibleTo(Spell(l), Line(y))
  {
    var own := ExactIsLabel(all, allow, y);
    PathOfMember(all + allow, l);
    ExactLineMatches(l, own);
    assert Parts(l)[..|l.dirs|] == l.dirs && |Parts(l)| > |l.dirs|;
  }

  lemma NonemptyPaths(labels: seq<Label>)
    ensures Nonempty(PathsOf(labels))
  {
  }

  /** End to end, for labels none of which is a path prefix of another: the printed lines, globs and all,
      make a label visible if and only if every label in or below its directory is to be allowed. */
  lemma VisibleIffDirectoryAllowed(all: seq<Label>, allow: seq<Label>, l: Label)
    requires (forall k :: k in all + allow ==> Plain(k)) && PrefixFree(PathsOf(all + allow))
    requires l in all + allow && Plain(l)
    ensures SeenByLine(Yielded(PathsOf(all), PathsOf(allow)), l) <==> AllBelowAllowed(PathsOf(all), PathsOf(allow), l.dirs)
  {
    var ys, path := Yielded(PathsOf(all), PathsOf(allow)), ROOT + Parts(l);
    PathsOfConcat(all, allow);
    PathOfMember(all + allow, l);
    NonemptyPaths(all + allow);
    UnderGlobIff(PathsOf(all), PathsOf(allow), l.dirs, l.name);
    if SeenByLine(ys, l) {
      var y :| y in ys && Allows(y) && y.path != [] && IsVisibleTo(Spell(l), Line(y));
      if y.Exact? { ExactLineShowsNone(all, allow, l, y); } else { YieldedGlobMatches(all, allow, l, y); }
    }
    if UnderGlob(ys, path) {
      var y :| y in ys && y.Glob? && Covers(y, path);
      var p := GlobAt(PathsOf(all), PathsOf(allow), y);
      YieldedGlobMatches(all, allow, l, y);
    }
  }
}
