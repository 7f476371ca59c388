/** scripts/generate_cargo.py: package names made from labels, and the expansion of groups. */
module Mangling {
  import opened Basics
  import opened Text

  /** The text a character becomes. */
  function Code(c: char): string {
    if c == '-' then "--"
    else if c == '_' then "__"
    else if c == '/' then "_-_"
    else if c == ':' then "-_-"
    else if c == '.' then "_--"
    else [c]
  }

  function Mangle(s: string): string {
    if s == "" then "" else Code(s[0]) + Mangle(s[1..])
  }

  /** The label without its toolchain. */
  function StripToolchain(s: string): string { s[..Find(s, '(')] }

  /** mangle_label; None is its failed assertion. */
  method MangleLabel(s: string) returns (r: Option<string>)
    ensures r == if StartsWith(s, "//") then Some(Mangle(StripToolchain(s[2..]))) else None
  {
    if !StartsWith(s, "//") { return None; }
    var text := s[2..];
    var result := "";
    var i := 0;
    ghost var cut := Find(text, '(');
    while i < |text|
      invariant 0 <= i <= cut
      invariant result + Mangle(text[i..cut]) == Mangle(text[..cut])
    {
      var c := text[i];
      if c == '(' {
        assert i == cut;
        break;
      }
      assert text[i..cut][0] == c && text[i..cut][1..] == text[i + 1..cut];
      assert result + (Code(c) + Mangle(text[i + 1..cut])) == result + Code(c) + Mangle(text[i + 1..cut]);
      if c == '-' {
        result := result + "--";
      } else if c == '_' {
        result := result + "__";
      } else if c == '/' {
        result := result + "_-_";
      } else if c == ':' {
        result := result + "-_-";
      } else if c == '.' {
        result := result + "_--";
      } else {
        result := result + [c];
      }
      i := i + 1;
    }
    assert i == cut && text[i..cut] == "" && result + "" == result;
    return Some(result);
  }

  lemma {:induction false} MangleConcat(a: string, b: string)
    ensures Mangle(a + b) == Mangle(a) + Mangle(b)
    decreases |a|
  {
    if a == "" {
      assert a + b == b;
    } else {
      assert (a + b)[0] == a[0] && (a + b)[1..] == a[1..] + b;
      MangleConcat(a[1..], b);
    }
  }

  /** Names are mangled part by part, and what stands between parts is spelled so. */
  lemma MangleAround(a: string, b: string)
    ensures Mangle(a + "/" + b) == Mangle(a) + "_-_" + Mangle(b)
    ensures Mangle(a + ":" + b) == Mangle(a) + "-_-" + Mangle(b)
    ensures Mangle(a + "." + b) == Mangle(a) + "_--" + Mangle(b)
    ensures Mangle(a + "-" + b) == Mangle(a) + "--" + Mangle(b)
    ensures Mangle(a + "_" + b) == Mangle(a) + "__" + Mangle(b)
  {
    MangleOne(a, '/', b);
    MangleOne(a, ':', b);
    MangleOne(a, '.', b);
    MangleOne(a, '-', b);
    MangleOne(a, '_', b);
  }

  lemma MangleOne(a: string, c: char, b: string)
    ensures Mangle(a + [c] + b) == Mangle(a) + Code(c) + Mangle(b)
  {
    MangleConcat(a + [c], b);
    MangleConcat(a, [c]);
    assert [c][1..] == "" && Code(c) + "" == Code(c);
  }

  /** Everything else stays. */
  lemma {:induction false} MangleKeeps(s: string)
    requires '/' !in s && ':' !in s && '.' !in s && '-' !in s && '_' !in s
    ensures Mangle(s) == s
  {
    if s != "" { MangleKeeps(s[1..]); }
  }

  /** The first character a mangled name stands for, and how much of the name spells it. */
  function First(s: string): Option<(char, nat)>
    requires s != ""
  {
    if s[0] == '-' then
      if |s| >= 2 && s[1] == '-' then Some(('-', 2))
      else if |s| >= 3 && s[1] == '_' && s[2] == '-' then Some((':', 3)) else None
    else if s[0] == '_' then
      if |s| >= 2 && s[1] == '_' then Some(('_', 2))
      else if |s| >= 3 && s[1] == '-' && s[2] == '_' then Some(('/', 3))
      else if |s| >= 3 && s[1] == '-' && s[2] == '-' then Some(('.', 3)) else None
    else if s[0] in "/:." then None
    else Some((s[0], 1))
  }

  /** Reading a mangled name from left to right. */
  function Decode(s: string): Option<string>
    decreases |s|
  {
    if s == "" then Some("")
    else match First(s)
      case None => None
      case Some((c, n)) => (match Decode(s[n..]) case None => None case Some(t) => Some([c] + t))
  }

  lemma FirstOfCode(c: char, rest: string)
    ensures First(Code(c) + rest) == Some((c, |Code(c)|))
  {
  }

  lemma {:induction false} DecodeOfMangle(t: string)
    ensures Decode(Mangle(t)) == Some(t)
  {
    if t != "" {
      FirstOfCode(t[0], Mangle(t[1..]));
      DecodeOfMangle(t[1..]);
      assert Mangle(t)[|Code(t[0])|..] == Mangle(t[1..]);
      assert t == [t[0]] + t[1..];
    }
  }

  lemma {:induction false} MangleOfDecode(s: string)
    ensures Decode(s).Some? ==> Mangle(Decode(s).value) == s
    decreases |s|
  {
    if s != "" && First(s).Some? {
      var (c, n) := First(s).value;
      MangleOfDecode(s[n..]);
      if Decode(s[n..]).Some? {
        var t := Decode(s[n..]).value;
        assert s[..n] == Code(c);
        assert ([c] + t)[1..] == t;
        assert s == s[..n] + s[n..];
      }
    }
  }

  /** Decoding inverts mangling, and nothing but mangled names decodes. */
  lemma DecodeIffMangled(s: string, t: string)
    ensures Decode(s) == Some(t) <==> Mangle(t) == s
  {
    DecodeOfMangle(t);
    MangleOfDecode(s);
  }

  /** Two labels get the same package name exactly if they are the same up to the toolchain. */
  lemma SameNameIffSameLabel(a: string, b: string)
    ensures Mangle(StripToolchain(a)) == Mangle(StripToolchain(b)) <==> StripToolchain(a) == StripToolchain(b)
  {
    DecodeOfMangle(StripToolchain(a));
    DecodeOfMangle(StripToolchain(b));
  }
}

module Expansion {

  /** A GN target, as far as expansion goes; `kind` is what the project description calls its type. */
  datatype Target = Target(kind: string, deps: seq<string>)

  type Project = map<string, Target>

  /** A place for every target that expansion comes upon, groups and source sets after their deps. */
  type Ranks = map<string, nat>

  ghost predicate Ranked(p: Project, rank: Ranks, ts: seq<string>, n: nat) {
    forall i :: 0 <= i < |ts| ==> ts[i] in p && ts[i] in rank && rank[ts[i]] < n
  }

  /** The deps of a group or source set are targets of the project, ranked below it. */
  ghost predicate GoodTarget(p: Project, rank: Ranks, t: string) {
    t in p && t in rank && (p[t].kind in ["source_set", "group"] ==> Ranked(p, rank, p[t].deps, rank[t]))
  }

  /** The ranked targets are in the project, and their groups and source sets form no cycle. Nothing is
      said about other targets. */
  ghost predicate Acyclic(p: Project, rank: Ranks) { forall t {:trigger GoodTarget(p, rank, t)} :: t in rank ==> GoodTarget(p, rank, t) }

  /** expand_source_set_or_group, when its result is not empty. */
  predicate Expands(p: Project, t: string)
    requires t in p
  {
    p[t].kind in ["source_set", "group"] && p[t].deps != []
  }

  /** All the leaves a list of targets stands for, with repetitions, in the order of a stack: last first. */
  ghost function Leaves(p: Project, rank: Ranks, ts: seq<string>, n: nat): seq<string>
    requires Acyclic(p, rank) && Ranked(p, rank, ts, n)
    decreases n, |ts|
  {
    if ts == [] then []
    else
      var t := ts[|ts| - 1];
      assert GoodTarget(p, rank, t);
      (if Expands(p, t) then Leaves(p, rank, p[t].deps, rank[t]) else [t]) + Leaves(p, rank, ts[..|ts| - 1], n)
  }

  /** Number of pops that expanding takes. */
  ghost function Work(p: Project, rank: Ranks, ts: seq<string>, n: nat): nat
    requires Acyclic(p, rank) && Ranked(p, rank, ts, n)
    decreases n, |ts|
  {
    if ts == [] then 0
    else
      var t := ts[|ts| - 1];
      assert GoodTarget(p, rank, t);
      1 + (if Expands(p, t) then Work(p, rank, p[t].deps, rank[t]) else 0) + Work(p, rank, ts[..|ts| - 1], n)
  }

  /** The rank bound is there for termination only. */
  lemma {:induction false} BoundDoesNotMatter(p: Project, rank: Ranks, ts: seq<string>, n: nat, m: nat)
    requires Acyclic(p, rank) && Ranked(p, rank, ts, n) && Ranked(p, rank, ts, m)
    ensures Leaves(p, rank, ts, n) == Leaves(p, rank, ts, m) && Work(p, rank, ts, n) == Work(p, rank, ts, m)
    decreases |ts|
  {
    if ts != [] { BoundDoesNotMatter(p, rank, ts[..|ts| - 1], n, m); }
  }

  lemma {:induction false} LeavesConcat(p: Project, rank: Ranks, a: seq<string>, b: seq<string>, n: nat)
    requires Acyclic(p, rank) && Ranked(p, rank, a, n) && Ranked(p, rank, b, n)
    ensures Ranked(p, rank, a + b, n)
    ensures Leaves(p, rank, a + b, n) == Leaves(p, rank, b, n) + Leaves(p, rank, a, n)
    ensures Work(p, rank, a + b, n) == Work(p, rank, b, n) + Work(p, rank, a, n)
    decreases |b|
  {
    if b == [] {
      assert a + b == a;
    } else {
      var front, t := b[..|b| - 1], b[|b| - 1];
      assert (a + b)[..|a + b| - 1] == a + front && (a + b)[|a + b| - 1] == t;
      LeavesConcat(p, rank, a, front, n);
      assert GoodTarget(p, rank, t);
      var own := if Expands(p, t) then Leaves(p, rank, p[t].deps, rank[t]) else [t];
      assert own + (Leaves(p, rank, front, n) + Leaves(p, rank, a, n)) == own + Leaves(p, rank, front, n) + Leaves(p, rank, a, n);
    }
  }

  /** What one pop does to the stack. */
  lemma PopLast(p: Project, rank: Ranks, ts: seq<string>, n: nat)
    requires Acyclic(p, rank) && Ranked(p, rank, ts, n) && ts != []
    ensures var front, t := ts[..|ts| - 1], ts[|ts| - 1];
            && Ranked(p, rank, front, n)
            && if Expands(p, t) then
                 && Ranked(p, rank, front + p[t].deps, n)
                 && Leaves(p, rank, ts, n) == Leaves(p, rank, front + p[t].deps, n)
                 && Work(p, rank, front + p[t].deps, n) < Work(p, rank, ts, n)
               else
                 Leaves(p, rank, ts, n) == [t] + Leaves(p, rank, front, n) && Work(p, rank, front, n) < Work(p, rank, ts, n)
  {
    var front, t := ts[..|ts| - 1], ts[|ts| - 1];
    assert GoodTarget(p, rank, t);
    if Expands(p, t) {
      BoundDoesNotMatter(p, rank, p[t].deps, n, rank[t]);
      LeavesConcat(p, rank, front, p[t].deps, n);
    }
  }

  /** The worklist of write_deps: it ends, having visited exactly the leaves of the expansion, each as
      often as it occurs there, in the order of the stack. `rank` and `n` only witness that there is no cycle. */
  method WriteDeps(p: Project, ghost rank: Ranks, ghost n: nat, deps0: seq<string>) returns (visited: seq<string>)
    requires Acyclic(p, rank) && Ranked(p, rank, deps0, n)
    ensures visited == Leaves(p, rank, deps0, n)
  {
    visited := [];
    var deps := deps0;
    while deps != []
      invariant Ranked(p, rank, deps, n)
      invariant visited + Leaves(p, rank, deps, n) == Leaves(p, rank, deps0, n)
      decreases Work(p, rank, deps, n)
    {
      PopLast(p, rank, deps, n);
      var dep := deps[|deps| - 1];
      deps := deps[..|deps| - 1];
      if Expands(p, dep) {
        deps := deps + p[dep].deps;
        continue;
      }
      assert visited + ([dep] + Leaves(p, rank, deps, n)) == visited + [dep] + Leaves(p, rank, deps, n);
      visited := visited + [dep];
    }
  }

  // ------------------------------------------------------------- reference expansion

  /** How often `leaf` occurs when the targets are expanded by plain recursion, in source order. */
  ghost function Occurrences(p: Project, rank: Ranks, ts: seq<string>, n: nat, leaf: string): nat
    requires Acyclic(p, rank) && Ranked(p, rank, ts, n)
    decreases n, |ts|
  {
    if ts == [] then 0
    else
      var t := ts[0];
      assert GoodTarget(p, rank, t);
      (if Expands(p, t) then Occurrences(p, rank, p[t].deps, rank[t], leaf) else if t == leaf then 1 else 0) +
      Occurrences(p, rank, ts[1..], n, leaf)
  }

  lemma {:induction false} OccurrencesSnoc(p: Project, rank: Ranks, ts: seq<string>, n: nat, leaf: string)
    requires Acyclic(p, rank) && Ranked(p, rank, ts, n) && ts != []
    ensures var t := ts[|ts| - 1];
            && GoodTarget(p, rank, t)
            && Occurrences(p, rank, ts, n, leaf) ==
               (if Expands(p, t) then Occurrences(p, rank, p[t].deps, rank[t], leaf) else if t == leaf then 1 else 0) +
               Occurrences(p, rank, ts[..|ts| - 1], n, leaf)
    decreases |ts|
  {
    var t := ts[|ts| - 1];
    assert GoodTarget(p, rank, t);
    if |ts| == 1 {
      assert ts[1..] == [] && ts[..0] == [];
    } else {
      var front := ts[..|ts| - 1];
      OccurrencesSnoc(p, rank, ts[1..], n, leaf);
      assert ts[1..][|ts| - 2] == t && ts[1..][..|ts| - 2] == front[1..] && front[0] == ts[0];
    }
  }

  /** The worklist visits each leaf exactly as often as the recursive expansion contains it. */
  lemma {:induction false} VisitsMatchOccurrences(p: Project, rank: Ranks, ts: seq<string>, n: nat, leaf: string)
    requires Acyclic(p, rank) && Ranked(p, rank, ts, n)
    ensures multiset(Leaves(p, rank, ts, n))[leaf] == Occurrences(p, rank, ts, n, leaf)
    decreases n, |ts|
  {
    if ts != [] {
      var t := ts[|ts| - 1];
      OccurrencesSnoc(p, rank, ts, n, leaf);
      VisitsMatchOccurrences(p, rank, ts[..|ts| - 1], n, leaf);
      if Expands(p, t) { VisitsMatchOccurrences(p, rank, p[t].deps, rank[t], leaf); }
    }
  }

  // ------------------------------------------------------------- the order of the visits

  /** The targets with every group and source set replaced by its expansion, in source order. */
  ghost function Expanded(p: Project, rank: Ranks, ts: seq<string>, n: nat): seq<string>
    requires Acyclic(p, rank) && Ranked(p, rank, ts, n)
    decreases n, |ts|
  {
    if ts == [] then []
    else
      var t := ts[0];
      assert GoodTarget(p, rank, t);
      (if Expands(p, t) then Expanded(p, rank, p[t].deps, rank[t]) else [t]) + Expanded(p, rank, ts[1..], n)
  }

  function Backwards(s: seq<string>): (r: seq<string>)
    ensures |r| == |s| && forall i :: 0 <= i < |s| ==> r[i] == s[|s| - 1 - i]
  {
    if s == [] then [] else Backwards(s[1..]) + [s[0]]
  }

  lemma {:induction false} BackwardsConcat(a: seq<string>, b: seq<string>)
    ensures Backwards(a + b) == Backwards(b) + Backwards(a)
  {
  }

  /** The worklist visits the expansion from its end to its beginning. */
  lemma {:induction false} VisitsAreBackwards(p: Project, rank: Ranks, ts: seq<string>, n: nat)
    requires Acyclic(p, rank) && Ranked(p, rank, ts, n)
    ensures Leaves(p, rank, ts, n) == Backwards(Expanded(p, rank, ts, n))
    decreases n, |ts|
  {
    if ts != [] {
      var t, rest := ts[0], ts[1..];
      assert GoodTarget(p, rank, t);
      assert ts == [t] + rest;
      LeavesConcat(p, rank, [t], rest, n);
      VisitsAreBackwards(p, rank, rest, n);
      if Expands(p, t) { VisitsAreBackwards(p, rank, p[t].deps, rank[t]); }
      var own := if Expands(p, t) then Expanded(p, rank, p[t].deps, rank[t]) else [t];
      BackwardsConcat(own, Expanded(p, rank, rest, n));
      LeavesOne(p, rank, t, n);
    }
  }

  lemma LeavesOne(p: Project, rank: Ranks, t: string, n: nat)
    requires Acyclic(p, rank) && Ranked(p, rank, [t], n) && GoodTarget(p, rank, t)
    ensures Leaves(p, rank, [t], n) == if Expands(p, t) then Leaves(p, rank, p[t].deps, rank[t]) else [t]
  {
    assert [t][..0] == [];
  }

  // ------------------------------------------------------------- the leaves by paths

  /** `path` leads from one of `ts` through source sets and groups, each having the next among its deps. */
  ghost predicate Through(p: Project, ts: seq<string>, path: seq<string>) {
    && path != [] && path[0] in ts
    && forall i :: 0 <= i < |path| - 1 ==>
         path[i] in p && (p[path[i]].kind == "source_set" || p[path[i]].kind == "group") && path[i + 1] in p[path[i]].deps
  }

  /** A target at which expansion ends: of another kind, or with no deps. */
  predicate Stays(p: Project, t: string) {
    t in p && ((p[t].kind != "source_set" && p[t].kind != "group") || p[t].deps == [])
  }

  lemma {:induction false} LeafHasPath(p: Project, rank: Ranks, ts: seq<string>, n: nat, leaf: string) returns (path: seq<string>)
    requires Acyclic(p, rank) && Ranked(p, rank, ts, n) && leaf in Leaves(p, rank, ts, n)
    ensures Stays(p, leaf) && Through(p, ts, path) && path[|path| - 1] == leaf
    decreases n, |ts|
  {
    var front, t := ts[..|ts| - 1], ts[|ts| - 1];
    assert GoodTarget(p, rank, t);
    if leaf in Leaves(p, rank, front, n) {
      path := LeafHasPath(p, rank, front, n, leaf);
    } else if Expands(p, t) {
      var tail := LeafHasPath(p, rank, p[t].deps, rank[t], leaf);
      path := [t] + tail;
    } else {
      path := [t];
    }
  }

  lemma {:induction false} PathEndsInLeaf(p: Project, rank: Ranks, ts: seq<string>, n: nat, path: seq<string>)
    requires Acyclic(p, rank) && Ranked(p, rank, ts, n) && Through(p, ts, path) && Stays(p, path[|path| - 1])
    ensures path[|path| - 1] in Leaves(p, rank, ts, n)
    decreases n, |ts|
  {
    var front, t := ts[..|ts| - 1], ts[|ts| - 1];
    assert GoodTarget(p, rank, t);
    if path[0] in front {
      PathEndsInLeaf(p, rank, front, n, path);
    } else if |path| > 1 {
      assert path[1] in p[t].deps;
      assert path[1..][|path| - 2] == path[|path| - 1];
      PathEndsInLeaf(p, rank, p[t].deps, rank[t], path[1..]);
    }
  }

  /** The targets visited are exactly those at which a way through source sets and groups ends. */
  lemma LeafIffPath(p: Project, rank: Ranks, ts: seq<string>, n: nat, leaf: string)
    requires Acyclic(p, rank) && Ranked(p, rank, ts, n)
    ensures leaf in Leaves(p, rank, ts, n) <==> Stays(p, leaf) && exists path :: Through(p, ts, path) && path[|path| - 1] == leaf
  {
    if leaf in Leaves(p, rank, ts, n) { var path := LeafHasPath(p, rank, ts, n, leaf); }
    if Stays(p, leaf) && exists path :: Through(p, ts, path) && path[|path| - 1] == leaf {
      var path :| Through(p, ts, path) && path[|path| - 1] == leaf;
      PathEndsInLeaf(p, rank, ts, n, path);
    }
  }
}

module Reachability {
  import opened Basics

  /** The dependencies of a target, by kind. */
  datatype Meta = Meta(deps: seq<string>, publicDeps: seq<string>, dataDeps: seq<string>) {
    predicate Has(d: string) { d in deps || d in publicDeps || d in dataDeps }
  }

  type Project = map<string, Meta>

  const ROOT := "//:default"

  /** `path` leads from the default target to `t`, each target depending on the next. */
  ghost predicate Leads(p: Project, path: seq<string>, t: string) {
    && path != [] && path[0] == ROOT && path[|path| - 1] == t
    && forall i :: 0 <= i < |path| - 1 ==> path[i] in p && p[path[i]].Has(path[i + 1])
  }

  ghost predicate Reachable(p: Project, t: string) { exists path :: Leads(p, path, t) }

  lemma ReachableStep(p: Project, t: string, d: string)
    requires Reachable(p, t) && t in p && p[t].Has(d)
    ensures Reachable(p, d)
  {
    var path :| Leads(p, path, t);
    assert Leads(p, path + [d], d);
  }

  lemma RootReachable(p: Project)
    ensures Reachable(p, ROOT)
  {
    assert Leads(p, [ROOT], ROOT);
  }

  /** A set with the default target and with all dependencies of its members has everything reachable. */
  lemma {:induction false} ClosedHasPath(p: Project, s: set<string>, path: seq<string>, t: string)
    requires Leads(p, path, t) && ROOT in s && Closed(p, s)
    ensures t in s
    decreases |path|
  {
    if |path| > 1 {
      var front := path[..|path| - 1];
      assert Leads(p, front, front[|front| - 1]);
      ClosedHasPath(p, s, front, front[|front| - 1]);
    }
  }

  ghost predicate Closed(p: Project, s: set<string>) {
    forall t, d :: t in s && t in p && p[t].Has(d) ==> d in s
  }

  /** Everything that can be added at all. */
  ghost function Universe(p: Project): set<string> {
    {ROOT} + (set t, d | t in p && d in p[t].deps :: d) + (set t, d | t in p && d in p[t].publicDeps :: d) +
    (set t, d | t in p && d in p[t].dataDeps :: d)
  }

  /** The innermost loop: add what is new, and remember to look at it. */
  method AddNew(ds: seq<string>, result0: set<string>, pending0: seq<string>) returns (result: set<string>, pending: seq<string>)
    requires forall t :: t in pending0 ==> t in result0
    ensures result == result0 + set d | d in ds
    ensures forall t :: t in pending <==> t in pending0 || t in result - result0
    ensures result == result0 ==> pending == pending0
  {
    result, pending := result0, pending0;
    for i := 0 to |ds|
      invariant result == result0 + set d | d in ds[..i]
      invariant forall t :: t in pending <==> t in pending0 || t in result - result0
      invariant result == result0 ==> pending == pending0
    {
      assert ds[..i + 1] == ds[..i] + [ds[i]];
      if ds[i] !in result {
        result := result + {ds[i]};
        pending := pending + [ds[i]];
      }
    }
    assert ds[..|ds|] == ds;
  }

  /** All that was looked at is in the project, and its dependencies are in the result. */
  ghost predicate Explored(p: Project, result: set<string>, pending: seq<string>) {
    forall t :: t in result && t !in pending ==> t in p && forall d :: p[t].Has(d) ==> d in result
  }

  ghost predicate Sound(p: Project, result: set<string>) {
    forall t :: t in result ==> Reachable(p, t) && t in Universe(p)
  }

  lemma LookedAt(p: Project, current: string, result: set<string>, result': set<string>, front: seq<string>, pending': seq<string>)
    requires current in p && current in result && Sound(p, result) && Explored(p, result, front + [current])
    requires result' == result + set d | p[current].Has(d) && (d in p[current].deps + p[current].publicDeps + p[current].dataDeps)
    requires forall t :: t in pending' <==> t in front || t in result' - result
    ensures Sound(p, result') && Explored(p, result', pending')
  {
    forall t | t in result'
      ensures Reachable(p, t) && t in Universe(p)
    {
      if t !in result { ReachableStep(p, current, t); }
    }
  }

  /** The body of the loop, once a target of the project has been taken off the stack. */
  method LookAt(p: Project, current: string, result0: set<string>, front: seq<string>) returns (result: set<string>, pending: seq<string>)
    requires current in p && current in result0 && (forall t :: t in front ==> t in result0)
    requires Sound(p, result0) && Explored(p, result0, front + [current])
    ensures Sound(p, result) && Explored(p, result, pending) && (forall t :: t in pending ==> t in result)
    ensures result0 <= result && (result == result0 ==> pending == front)
  {
    var meta := p[current];
    result, pending := AddNew(meta.deps, result0, front);
    result, pending := AddNew(meta.publicDeps, result, pending);
    result, pending := AddNew(meta.dataDeps, result, pending);
    LookedAt(p, current, result0, result, front, pending);
  }

  lemma NothingPending(p: Project, result: set<string>)
    requires ROOT in result && Explored(p, result, [])
    ensures forall t :: Reachable(p, t) ==> t in result
  {
    forall t | Reachable(p, t)
      ensures t in result
    {
      var path :| Leads(p, path, t);
      ClosedHasPath(p, result, path, t);
    }
  }

  /** reachable_targets: exactly what the default target leads to. It fails (a KeyError) exactly if that
      leads out of the project. */
  method ReachableTargets(p: Project) returns (r: Option<set<string>>)
    ensures r.Some? ==> forall t :: t in r.value <==> Reachable(p, t)
    ensures r.None? <==> exists t :: Reachable(p, t) && t !in p
  {
    var result, pending := {ROOT}, [ROOT];
    RootReachable(p);
    while pending != []
      invariant ROOT in result && (forall t :: t in pending ==> t in result)
      invariant Sound(p, result) && Explored(p, result, pending)
      decreases Universe(p) - result, |pending|
    {
      ghost var before := result;
      var current, front := pending[|pending| - 1], pending[..|pending| - 1];
      assert pending == front + [current];
      if current !in p { return None; }
      result, pending := LookAt(p, current, result, front);
      if d :| d in result && d !in before { assert d in Universe(p) - before; }
    }
    NothingPending(p, result);
    return Some(result);
  }
}
