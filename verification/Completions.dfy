/** scripts/gn_complete/complete.py: shell completions for GN labels. */
module Completions {
  import opened Basics
  import opened Text
  import opened GlobTree

  /** "".join */
  function Cat(segments: seq<string>): string {
    if segments == [] then "" else segments[0] + Cat(segments[1..])
  }

  lemma {:induction false} CatSnoc(segments: seq<string>, x: string)
    ensures Cat(segments + [x]) == Cat(segments) + x
  {
    if segments == [] {
      assert segments + [x] == [x];
    } else {
      assert (segments + [x])[1..] == segments[1..] + [x];
      CatSnoc(segments[1..], x);
    }
  }

  lemma {:induction false} CatConcat(a: seq<string>, b: seq<string>)
    ensures Cat(a + b) == Cat(a) + Cat(b)
  {
    if a == [] {
      assert a + b == b;
    } else {
      assert (a + b)[1..] == a[1..] + b;
      CatConcat(a[1..], b);
    }
  }

  // ------------------------------------------------------------- split_label

  /** str.rindex: the last `c`. */
  function RIndex(s: string, c: char): (i: nat)
    requires c in s
    ensures i < |s| && s[i] == c && forall j :: i < j < |s| ==> s[j] != c
  {
    if s[|s| - 1] == c then |s| - 1 else RIndex(s[..|s| - 1], c)
  }

  /** The while loop of split_label: cut before every '/' but one in front. */
  function DirSegments(s: string): seq<string>
    decreases |s|
  {
    if s == "" then []
    else
      var i := 1 + Find(s[1..], '/');
      if i == |s| then [s] else [s[..i]] + DirSegments(s[i..])
  }

  function GlueToolchain(segments: seq<string>, toolchain: string): seq<string> {
    if toolchain == "" then segments
    else if segments == [] then [toolchain]
    else segments[|segments| - 1 := segments[|segments| - 1] + toolchain]
  }

  /** The segments of directories, cut as above after a leading "//". */
  function PathSegments(dirs: string): seq<string> {
    if StartsWith(dirs, "//") then ["//"] + DirSegments(dirs[2..]) else DirSegments(dirs)
  }

  /** The segments of a label without its toolchain. */
  function BodySegments(text: string): seq<string> {
    var colon := Find(text, ':');
    PathSegments(text[..colon]) + (if colon < |text| then [text[colon..]] else [])
  }

  /** Where the toolchain starts, if there is one. */
  function Cut(s: string): nat
    requires s != "" && (s[|s| - 1] == ')' ==> '(' in s)
  {
    if s[|s| - 1] == ')' then RIndex(s, '(') else |s|
  }

  /** None is the ValueError of rindex on a label that closes a toolchain it never opened. */
  function SplitSegments(s: string): Option<seq<string>> {
    if s == "" then Some([""])
    else if s[|s| - 1] == ')' && '(' !in s then None
    else Some(GlueToolchain(BodySegments(s[..Cut(s)]), s[Cut(s)..]))
  }

  /** split_label */
  method SplitLabel(s: string) returns (r: Option<seq<string>>)
    ensures r == SplitSegments(s)
  {
    if s == "" { return Some([""]); }
    var toolchain, text := "", s;
    if s[|s| - 1] == ')' {
      if '(' !in s { return None; }
      var i := RIndex(s, '(');
      toolchain, text := s[i..], s[..i];
    }
    assert toolchain == s[Cut(s)..] && text == s[..Cut(s)];
    ghost var body := BodySegments(text);
    var leaf := "";
    var i := Find(text, ':');
    if i < |text| {
      leaf, text := text[i..], text[..i];
    } else {
      assert text[..i] == text;
    }
    assert body == PathSegments(text) + if leaf != "" then [leaf] else [];
    var segments := SplitDirs(text);
    if leaf != "" { segments := segments + [leaf]; }
    assert segments == body;
    if toolchain != "" {
      if segments != [] {
        segments := segments[|segments| - 1 := segments[|segments| - 1] + toolchain];
      } else {
        segments := [toolchain];
      }
    }
    return Some(segments);
  }

  /** The part of split_label that cuts directories. */
  method SplitDirs(dirs: string) returns (segments: seq<string>)
    ensures segments == PathSegments(dirs)
  {
    segments := [];
    var text := dirs;
    if StartsWith(text, "//") {
      segments := ["//"];
      text := text[2..];
    }
    while true
      invariant PathSegments(dirs) == segments + DirSegments(text)
      decreases |text|
    {
      var idx := if text == "" then 0 else 1 + Find(text[1..], '/');
      if 0 < idx < |text| {
        assert segments + ([text[..idx]] + DirSegments(text[idx..])) == segments + [text[..idx]] + DirSegments(text[idx..]);
        segments := segments + [text[..idx]];
        text := text[idx..];
      } else {
        if text != "" { segments := segments + [text]; }
        break;
      }
    }
  }

  lemma CatCons(x: string, rest: seq<string>)
    ensures Cat([x] + rest) == x + Cat(rest)
  {
    assert ([x] + rest)[1..] == rest;
  }

  /** Either one segment is left, or the first ends before the next slash. */
  lemma DirStep(s: string) returns (first: string, rest: string)
    requires s != ""
    ensures s == first + rest && first != "" && |rest| < |s|
    ensures (forall p :: 0 < p < |first| ==> s[p] != '/') && (rest != "" ==> rest[0] == '/')
    ensures DirSegments(s) == if rest == "" then [first] else [first] + DirSegments(rest)
  {
    var i := 1 + Find(s[1..], '/');
    first, rest := s[..i], s[i..];
    assert forall p :: 0 < p < i ==> s[p] == s[1..][p - 1];
    if i == |s| { assert first == s; } else { assert s[i] == s[1..][i - 1]; }
  }

  lemma {:induction false} CatDirs(s: string)
    ensures Cat(DirSegments(s)) == s
    decreases |s|
  {
    if s != "" {
      var first, rest := DirStep(s);
      if rest == "" {
        CatOne(first);
      } else {
        CatDirs(rest);
        CatCons(first, DirSegments(rest));
      }
    }
  }

  lemma CatGlue(segments: seq<string>, toolchain: string)
    ensures Cat(GlueToolchain(segments, toolchain)) == Cat(segments) + toolchain
  {
    if segments == [] {
      assert Cat([toolchain]) == toolchain + Cat([]);
    } else if toolchain != "" {
      var front, last := segments[..|segments| - 1], segments[|segments| - 1];
      assert segments == front + [last] && GlueToolchain(segments, toolchain) == front + [last + toolchain];
      CatSnoc(front, last);
      CatSnoc(front, last + toolchain);
      assert Cat(front) + (last + toolchain) == Cat(front) + last + toolchain;
    }
  }

  lemma CatOne(x: string)
    ensures Cat([x]) == x
  {
    assert Cat([x]) == x + Cat([]);
  }

  lemma CatPath(dirs: string)
    ensures Cat(PathSegments(dirs)) == dirs
  {
    if StartsWith(dirs, "//") {
      CatConcat(["//"], DirSegments(dirs[2..]));
      CatOne("//");
      CatDirs(dirs[2..]);
    } else {
      CatDirs(dirs);
    }
  }

  lemma CatBody(text: string)
    ensures Cat(BodySegments(text)) == text
  {
    var colon := Find(text, ':');
    var dirs, tail := text[..colon], if colon < |text| then [text[colon..]] else [];
    CatConcat(PathSegments(dirs), tail);
    CatPath(dirs);
    if colon < |text| { CatOne(text[colon..]); }
  }

  /** The segments join to the label again; splitting fails only on a ')' without any '('. */
  lemma SplitJoins(s: string)
    ensures SplitSegments(s).None? <==> s != "" && s[|s| - 1] == ')' && '(' !in s
    ensures SplitSegments(s).Some? ==> SplitSegments(s).value != [] && Cat(SplitSegments(s).value) == s
  {
    if s == "" {
      CatOne("");
    } else if SplitSegments(s).Some? {
      var text, toolchain := s[..Cut(s)], s[Cut(s)..];
      CatBody(text);
      CatGlue(BodySegments(text), toolchain);
      assert s == text + toolchain;
    }
  }

  // ------------------------------------------------------- where segments begin and end

  /** Some segment but the last ends at position `p` of the text the segments join to. */
  ghost predicate EndsAt(segments: seq<string>, p: int) { exists k :: 0 < k < |segments| && |Cat(segments[..k])| == p }

  ghost predicate NoEmpty(segments: seq<string>) { forall i :: 0 <= i < |segments| ==> segments[i] != "" }

  lemma EndsAtCons(x: string, rest: seq<string>, p: int)
    requires rest != []
    ensures EndsAt([x] + rest, p) <==> p == |x| || EndsAt(rest, p - |x|)
  {
    var all := [x] + rest;
    if k :| 0 < k < |all| && |Cat(all[..k])| == p {
      assert all[..k] == [x] + rest[..k - 1];
      CatCons(x, rest[..k - 1]);
      if k == 1 { assert rest[..0] == []; }
    }
    if p == |x| {
      assert all[..1] == [x];
      CatOne(x);
    }
    if k :| 0 < k < |rest| && |Cat(rest[..k])| == p - |x| {
      assert all[..k + 1] == [x] + rest[..k];
      CatCons(x, rest[..k]);
    }
  }

  lemma {:induction false} EndsAtConcat(a: seq<string>, b: seq<string>, p: int)
    requires b != []
    ensures EndsAt(a + b, p) <==> EndsAt(a, p) || (a != [] && p == |Cat(a)|) || EndsAt(b, p - |Cat(a)|)
    decreases |a|
  {
    if a == [] {
      assert a + b == b;
    } else {
      var x, rest := a[0], a[1..];
      assert a == [x] + rest && a + b == [x] + (rest + b);
      EndsAtCons(x, rest + b, p);
      EndsAtConcat(rest, b, p - |x|);
      if rest == [] { CatOne(x); } else { EndsAtCons(x, rest, p); }
    }
  }

  /** Directories are cut before each slash but one in front. */
  lemma {:induction false} DirsEndAt(s: string, p: int)
    ensures EndsAt(DirSegments(s), p) <==> 0 < p < |s| && s[p] == '/'
    ensures NoEmpty(DirSegments(s)) && (s != "" ==> DirSegments(s) != [])
    decreases |s|
  {
    if s != "" {
      var first, rest := DirStep(s);
      if rest == "" {
        assert s == first;
      } else {
        DirsEndAt(rest, p - |first|);
        EndsAtCons(first, DirSegments(rest), p);
        assert |first| <= p < |s| ==> s[p] == rest[p - |first|];
      }
    }
  }

  /** Where a leading "//" ends. */
  function Lead(dirs: string): nat { if StartsWith(dirs, "//") then 2 else 0 }

  lemma PathEndsAt(dirs: string, p: int)
    ensures EndsAt(PathSegments(dirs), p) <==>
            0 < p < |dirs| && (p == Lead(dirs) || (p > Lead(dirs) && dirs[p] == '/'))
    ensures NoEmpty(PathSegments(dirs)) && (dirs != "" ==> PathSegments(dirs) != [])
  {
    if StartsWith(dirs, "//") {
      var rest := dirs[2..];
      DirsEndAt(rest, p - 2);
      if rest != "" {
        EndsAtCons("//", DirSegments(rest), p);
        assert 2 <= p < |dirs| ==> dirs[p] == rest[p - 2];
      } else {
        assert DirSegments(rest) == [] && ["//"] + [] == ["//"];
      }
    } else {
      DirsEndAt(dirs, p);
    }
  }

  /** A place where a label without toolchain is cut: right after a leading "//"; before a slash in front of the
      target, other than one at the very start or right after the leading "//"; or before the target. */
  ghost predicate Boundary(text: string, p: int) {
    var colon := Find(text, ':');
    && 0 < p < |text|
    && (p == colon || (p < colon && (p == Lead(text[..colon]) || (p > Lead(text[..colon]) && text[p] == '/'))))
  }

  lemma BodyEndsAt(text: string, p: int)
    ensures EndsAt(BodySegments(text), p) <==> Boundary(text, p)
    ensures NoEmpty(BodySegments(text)) && (text != "" ==> BodySegments(text) != [])
  {
    var colon := Find(text, ':');
    var dirs := text[..colon];
    PathEndsAt(dirs, p);
    CatPath(dirs);
    if colon < |text| {
      var leaf := text[colon..];
      EndsAtConcat(PathSegments(dirs), [leaf], p);
      assert !EndsAt([leaf], p - |Cat(PathSegments(dirs))|);
    } else {
      assert PathSegments(dirs) + [] == PathSegments(dirs) && dirs == text;
    }
  }

  lemma GlueEndsAt(segments: seq<string>, toolchain: string, p: int)
    requires segments != []
    ensures EndsAt(GlueToolchain(segments, toolchain), p) <==> EndsAt(segments, p)
  {
    var glued := GlueToolchain(segments, toolchain);
    assert forall k :: 0 < k < |segments| ==> glued[..k] == segments[..k];
  }

  /** split_label cuts a label exactly at the boundaries of what precedes its toolchain, into segments none of
      which is empty, except that the empty label is one empty segment. */
  lemma SegmentsEndAtBoundaries(s: string, p: int)
    requires SplitSegments(s).Some?
    ensures EndsAt(SplitSegments(s).value, p) <==> s != "" && Boundary(s[..Cut(s)], p)
    ensures s != "" ==> NoEmpty(SplitSegments(s).value)
  {
    if s != "" {
      var text, toolchain := s[..Cut(s)], s[Cut(s)..];
      BodyEndsAt(text, p);
      if text == "" {
        assert BodySegments(text) == [];
        assert GlueToolchain([], toolchain) == [toolchain] && toolchain == s;
      } else {
        GlueEndsAt(BodySegments(text), toolchain, p);
      }
    }
  }

  // ------------------------------------------------- relative and absolute labels

  /** concat_labels; None is its exception. */
  function ConcatLabels(base: string, leaf: string): Option<string> {
    if ':' in base || StartsWith(leaf, "/") then None
    else if StartsWith(leaf, ":") || leaf == "" || EndsWith(base, "/") then Some(base + leaf)
    else Some(base + "/" + leaf)
  }

  /** make_label_relative */
  function MakeLabelRelative(base: string, absolute: string): string {
    var relative := if |base| <= |absolute| then absolute[|base|..] else "";
    if StartsWith(relative, "/") then relative[1..] else relative
  }

  /** Whenever main gets as far as matching targets, each of them, made relative, starts with what the
      user typed: insert_label never raises. */
  lemma MatchesKeepThePrefix(base: string, search: string, target: string)
    requires ConcatLabels(base, search).Some? && StartsWith(target, ConcatLabels(base, search).value)
    ensures StartsWith(MakeLabelRelative(base, target), search)
  {
    var prefix := ConcatLabels(base, search).value;
    var rest := target[|prefix|..];
    assert target == prefix + rest;
    if prefix == base + search {
      assert target[|base|..] == search + rest;
      assert search != "" ==> (search + rest)[..1] == search[..1];
    } else {
      assert target[|base|..] == "/" + (search + rest);
      assert MakeLabelRelative(base, target) == search + rest;
    }
  }

  /** When making a label relative and concatenating it back gives the label: exactly if what follows
      the base is empty, a target, or (as far as the base does not end in one already) a '/' and a
      proper path. In particular not for a target whose directory merely begins with the base's name. */
  ghost predicate SplitsAtBase(base: string, rest: string) {
    || rest == ""
    || rest[0] == ':'
    || (if EndsWith(base, "/") then rest[0] != '/' else rest[0] == '/' && |rest| > 1 && rest[1] != '/' && rest[1] != ':')
  }

  lemma RelativeRoundTripIff(base: string, rest: string)
    requires ':' !in base
    ensures ConcatLabels(base, MakeLabelRelative(base, base + rest)) == Some(base + rest) <==> SplitsAtBase(base, rest)
  {
    assert (base + rest)[|base|..] == rest;
    var relative := MakeLabelRelative(base, base + rest);
    if rest != "" && rest[0] == '/' {
      assert relative == rest[1..];
      assert base + rest == base + "/" + relative;
      assert |base + relative| != |base + rest|;
    } else {
      assert relative == rest;
      assert |base + "/" + relative| != |base + rest|;
    }
  }

  // --------------------------------------------------------- Completions objects

  function NameSeq(f: Forest): seq<string> {
    match f case Nil => [] case Cons(n, _, rest) => [n] + NameSeq(rest)
  }

  /** The single-child chain from a node downwards. */
  function Trunk(t: Tree): Path {
    if t.kids.Cons? && t.kids.rest.Nil? then [t.kids.name] + Trunk(t.kids.tree) else []
  }

  /** The node where the chain ends. */
  function TrunkEnd(t: Tree): Tree {
    if t.kids.Cons? && t.kids.rest.Nil? then TrunkEnd(t.kids.tree) else t
  }

  function Children(path: Path, names: seq<string>): (r: seq<Path>)
    ensures |r| == |names| && forall i :: 0 <= i < |r| ==> r[i] == path + [names[i]]
  {
    seq(|names|, i requires 0 <= i < |names| => path + [names[i]])
  }

  /** The segment paths that list_completions yields. */
  function CompletedPaths(t: Tree): seq<Path> {
    if t.kids.Nil? then []
    else
      var names := NameSeq(TrunkEnd(t).kids);
      if names == [] then [Trunk(t)] else Children(Trunk(t), names)
  }

  function Spelled(prefix: string, paths: seq<Path>): (r: seq<string>)
    ensures |r| == |paths| && forall i :: 0 <= i < |r| ==> r[i] == prefix + Cat(paths[i])
  {
    seq(|paths|, i requires 0 <= i < |paths| => prefix + Cat(paths[i]))
  }

  /** list_completions */
  method ListCompletions(prefix: string, t: Tree) returns (r: seq<string>)
    ensures r == Spelled(prefix, CompletedPaths(t))
  {
    r := [];
    if t.kids.Nil? { return; }
    var text, node := "", t;
    ghost var path: Path := [];
    while node.kids.Cons? && node.kids.rest.Nil?
      invariant text == Cat(path) && path + Trunk(node) == Trunk(t) && TrunkEnd(node) == TrunkEnd(t)
      decreases node
    {
      CatSnoc(path, node.kids.name);
      assert path + ([node.kids.name] + Trunk(node.kids.tree)) == path + [node.kids.name] + Trunk(node.kids.tree);
      path := path + [node.kids.name];
      text := text + node.kids.name;
      node := node.kids.tree;
    }
    assert path == Trunk(t);
    var names := NameSeq(node.kids);
    if names == [] {
      r := [prefix + text];
      return;
    }
    for i := 0 to |names|
      invariant |r| == i && forall k :: 0 <= k < i ==> r[k] == prefix + text + names[k]
    {
      r := r + [prefix + text + names[i]];
    }
    ChildrenSpelled(prefix, path, names, r);
  }

  lemma ChildSpelled(prefix: string, path: Path, name: string)
    ensures prefix + Cat(path) + name == prefix + Cat(path + [name])
  {
    CatSnoc(path, name);
    assert prefix + Cat(path) + name == prefix + (Cat(path) + name);
  }

  lemma ChildrenSpelled(prefix: string, path: Path, names: seq<string>, r: seq<string>)
    requires |r| == |names| && forall k :: 0 <= k < |r| ==> r[k] == prefix + Cat(path) + names[k]
    ensures r == Spelled(prefix, Children(path, names))
  {
    var children := Children(path, names);
    var spelled := Spelled(prefix, children);
    forall k | 0 <= k < |r|
      ensures r[k] == spelled[k]
    {
      ChildSpelled(prefix, path, names[k]);
      assert children[k] == path + [names[k]];
    }
  }

  /** Completions.insert_label on the trie; None is its exception, or the one of split_label. */
  method InsertLabel(prefix: string, t: Tree, target: string) returns (r: Option<Tree>)
    ensures r.None? <==> !StartsWith(target, prefix) || SplitSegments(target[|prefix|..]).None?
    ensures r.Some? ==> r.value == Insert(t, SplitSegments(target[|prefix|..]).value, true)
  {
    if !StartsWith(target, prefix) { return None; }
    var segments := SplitLabel(target[|prefix|..]);
    if segments.None? { return None; }
    return Some(Insert(t, segments.value, true));
  }

  /** The trie of a list of segment paths. */
  function Trie(paths: seq<Path>): Tree { UpdateTree(EMPTY, paths, true) }

  lemma TrieAt(paths: seq<Path>, q: Path)
    ensures WellFormed(Trie(paths))
    ensures At(Trie(paths), q).Some? <==> q == [] || exists l :: l in paths && Under(q, l)
  {
    UpdateAt(EMPTY, paths, true, q);
  }

  lemma {:induction false} TrunkIsThere(t: Tree)
    ensures At(t, Trunk(t)) == Some(TrunkEnd(t))
    ensures !(TrunkEnd(t).kids.Cons? && TrunkEnd(t).kids.rest.Nil?)
  {
    if t.kids.Cons? && t.kids.rest.Nil? {
      TrunkIsThere(t.kids.tree);
      assert Trunk(t)[0] == t.kids.name && Trunk(t)[1..] == Trunk(t.kids.tree);
    }
  }

  /** Every node lies on the trunk or beyond its end. */
  lemma {:induction false} OnTrunkOrBeyond(t: Tree, q: Path)
    requires At(t, q).Some?
    ensures Under(q, Trunk(t)) || (Under(Trunk(t), q) && At(TrunkEnd(t), q[|Trunk(t)|..]) == At(t, q))
  {
    if t.kids.Cons? && t.kids.rest.Nil? && q != [] {
      assert Kid(t.kids.rest, q[0]) == None;
      OnTrunkOrBeyond(t.kids.tree, q[1..]);
      var tr := Trunk(t);
      assert tr[0] == q[0] && tr[1..] == Trunk(t.kids.tree);
      UnderTail(q, tr);
      UnderTail(tr, q);
      if |tr| <= |q| { assert q[1..][|tr| - 1..] == q[|tr|..]; }
    } else {
      assert q[0..] == q;
    }
  }

  lemma {:induction false} NameSeqIs(f: Forest)
    requires WellFormedKids(f)
    ensures forall n :: n in NameSeq(f) <==> n in Names(f)
    ensures forall i, j :: 0 <= i < j < |NameSeq(f)| ==> NameSeq(f)[i] != NameSeq(f)[j]
  {
    if f.Cons? { NameSeqIs(f.rest); }
  }

  lemma {:induction false} SubtreeWellFormed(t: Tree)
    requires WellFormed(t)
    ensures WellFormed(TrunkEnd(t))
  {
    if t.kids.Cons? && t.kids.rest.Nil? { SubtreeWellFormed(t.kids.tree); }
  }

  /** `l` passes through completion number `i` and no other. */
  ghost predicate OnlyThrough(cs: seq<Path>, l: Path, i: nat) {
    i < |cs| && Under(cs[i], l) && forall j :: 0 <= j < |cs| && j != i ==> !Under(cs[j], l)
  }

  /** A node that is not an inner node of the trunk passes through exactly one completion. */
  lemma ThroughOne(t: Tree, l: Path) returns (i: nat)
    requires WellFormed(t) && l != [] && At(t, l).Some?
    requires Under(l, Trunk(t)) ==> IsLeaf(t, l)
    ensures OnlyThrough(CompletedPaths(t), l, i)
  {
    var tr, end, cs := Trunk(t), TrunkEnd(t), CompletedPaths(t);
    TrunkIsThere(t);
    OnTrunkOrBeyond(t, l);
    SubtreeWellFormed(t);
    NameSeqIs(end.kids);
    i := 0;
    if Under(l, tr) {
      LeafEndsTrunk(t, l);
      assert cs == [l];
      assert l[..|l|] == l;
    } else {
      var n := l[|tr|];
      assert l[|tr|..][0] == n;
      KidNamed(end.kids, n);
      var names := NameSeq(end.kids);
      i :| 0 <= i < |names| && names[i] == n;
      forall j | 0 <= j < |cs|
        ensures Under(cs[j], l) <==> names[j] == n
      {
        assert l[..|tr| + 1] == l[..|tr|] + [n] == tr + [n];
        assert cs[j] == tr + [names[j]];
        assert (tr + [names[j]])[|tr|] == names[j] && (tr + [n])[|tr|] == n;
      }
    }
  }

  lemma {:induction false} LeafEndsTrunk(t: Tree, l: Path)
    requires IsLeaf(t, l) && Under(l, Trunk(t))
    ensures l == Trunk(t) && TrunkEnd(t).kids.Nil?
  {
    if l != [] {
      assert Trunk(t)[..|l|][0] == l[0];
      assert Trunk(t)[1..] == Trunk(t.kids.tree);
      UnderTail(l, Trunk(t));
      LeafEndsTrunk(t.kids.tree, l[1..]);
      assert l == [l[0]] + l[1..];
    }
  }

  /** An inner node of the trunk passes through none. */
  lemma ThroughNone(t: Tree, l: Path, i: nat)
    requires At(t, l).Some? && Under(l, Trunk(t)) && !IsLeaf(t, l) && i < |CompletedPaths(t)|
    ensures !Under(CompletedPaths(t)[i], l)
  {
    TrunkIsThere(t);
    var c := CompletedPaths(t)[i];
    if NameSeq(TrunkEnd(t).kids) == [] {
      assert |l| == |Trunk(t)| ==> l == Trunk(t);
    }
  }

  /** Every completion lies on some inserted label. */
  lemma CompletionsLieOnLabels(paths: seq<Path>, i: nat)
    requires i < |CompletedPaths(Trie(paths))|
    ensures exists l :: l in paths && Under(CompletedPaths(Trie(paths))[i], l)
  {
    var t := Trie(paths);
    var c, end := CompletedPaths(t)[i], TrunkEnd(t);
    TrieAt(paths, []);
    TrunkIsThere(t);
    SubtreeWellFormed(t);
    NameSeqIs(end.kids);
    var names := NameSeq(end.kids);
    if names == [] {
      assert Trunk(t) != [];
    } else {
      KidNamed(end.kids, names[i]);
      AtConcat(t, Trunk(t), [names[i]]);
      assert [names[i]][1..] == [];
    }
    TrieAt(paths, c);
  }

  /** A node of the trie has no children exactly if no label properly extends it. */
  lemma TrieLeafIff(paths: seq<Path>, l: Path)
    requires OnSome(paths, l)
    ensures IsLeaf(Trie(paths), l) <==> !Extended(paths, l)
  {
    var t := Trie(paths);
    TrieAt(paths, l);
    LeafIff(t, l);
    if k :| k in paths && Under(l, k) && k != l {
      assert k[..|l| + 1] == l + [k[|l|]];
      TrieAt(paths, l + [k[|l|]]);
      assert Under(l + [k[|l|]], k);
      assert At(t, l + [k[|l|]]).Some?;
    } else {
      forall n
        ensures At(t, l + [n]).None?
      {
        TrieAt(paths, l + [n]);
        forall k | k in paths { UnderLonger(l, n, k); }
      }
    }
  }

  lemma UnderLonger(l: Path, n: string, k: Path)
    ensures Under(l + [n], k) ==> Under(l, k) && k != l
  {
    if |l| < |k| { assert k[..|l| + 1][..|l|] == k[..|l|] && (l + [n])[..|l|] == l; }
  }

  /** Some label properly extends `l`, and every label lies on the way to `l` or beyond it. */
  ghost predicate Swallowed(paths: seq<Path>, l: Path) {
    Extended(paths, l) && AllComparable(paths, l)
  }

  ghost predicate Extended(paths: seq<Path>, l: Path) { exists k :: k in paths && Under(l, k) && k != l }

  /** A path none of whose nodes branches lies on the trunk. */
  lemma {:induction false} UnbranchedIsTrunk(t: Tree, l: Path)
    requires WellFormed(t) && At(t, l).Some?
    requires forall i, n :: 0 <= i < |l| && At(t, l[..i] + [n]).Some? ==> n == l[i]
    ensures Under(l, Trunk(t))
  {
    if l != [] {
      assert l[..0] == [];
      forall n | n in Names(t.kids)
        ensures n == l[0]
      {
        KidNamed(t.kids, n);
        assert ([] + [n])[1..] == [];
        assert At(t, l[..0] + [n]).Some?;
      }
      KidNamed(t.kids, l[0]);
      assert t.kids.name in Names(t.kids);
      assert t.kids.rest.Nil?;
      var k := t.kids.tree;
      forall i, n | 0 <= i < |l[1..]| && At(k, l[1..][..i] + [n]).Some?
        ensures n == l[1..][i]
      {
        var q := l[..i + 1] + [n];
        assert q[0] == l[0] && q[1..] == l[1..][..i] + [n];
        assert At(t, q).Some?;
      }
      UnbranchedIsTrunk(k, l[1..]);
      UnderTail(l, Trunk(t));
    }
  }

  /** Every label lies on the way to `q` or beyond it. */
  ghost predicate AllComparable(paths: seq<Path>, q: Path) { forall k :: k in paths ==> Under(k, q) || Under(q, k) }

  /** `q` lies on some label. */
  ghost predicate OnSome(paths: seq<Path>, q: Path) { exists k :: k in paths && Under(q, k) }

  /** The descent of list_completions passes through a node exactly if no label branches off before it. */
  lemma OnTrunkIff(paths: seq<Path>, l: Path)
    requires OnSome(paths, l)
    ensures Under(l, Trunk(Trie(paths))) <==> AllComparable(paths, l)
  {
    var t := Trie(paths);
    TrieAt(paths, l);
    if Under(l, Trunk(t)) {
      forall k | k in paths
        ensures Under(k, l) || Under(l, k)
      {
        TrieAt(paths, k);
        assert Under(k, k);
        OnTrunkOrBeyond(t, k);
        BothOnTrunk(k, l, Trunk(t));
      }
    }
    if AllComparable(paths, l) {
      forall i, n | 0 <= i < |l| && At(t, l[..i] + [n]).Some?
        ensures n == l[i]
      {
        TrieAt(paths, l[..i] + [n]);
        var k :| k in paths && Under(l[..i] + [n], k);
        assert k[..i + 1][i] == (l[..i] + [n])[i] == n;
        assert Under(k, l) ==> l[..|k|][i] == k[i];
        assert Under(l, k) ==> k[..|l|][i] == l[i];
      }
      UnbranchedIsTrunk(t, l);
    }
  }

  lemma BothOnTrunk(k: Path, l: Path, tr: Path)
    requires Under(l, tr) && (Under(k, tr) || Under(tr, k))
    ensures Under(k, l) || Under(l, k)
  {
    if Under(tr, k) {
      assert k[..|l|] == k[..|tr|][..|l|];
    } else if |k| <= |l| {
      assert l[..|k|] == tr[..|l|][..|k|] == tr[..|k|];
    } else {
      assert k[..|l|] == tr[..|k|][..|l|] == tr[..|l|];
    }
  }

  /** An inserted label passes through exactly one completion, unless another label properly extends it and
      no label branches off before it ends: then through none. */
  lemma LabelPassesThroughOneIff(paths: seq<Path>, l: Path)
    requires l in paths && l != []
    ensures (exists i :: OnlyThrough(CompletedPaths(Trie(paths)), l, i)) <==> !Swallowed(paths, l)
    ensures Swallowed(paths, l) ==> forall i :: 0 <= i < |CompletedPaths(Trie(paths))| ==> !Under(CompletedPaths(Trie(paths))[i], l)
  {
    var t := Trie(paths);
    TrieAt(paths, l);
    assert Under(l, l);
    OnTrunkIff(paths, l);
    TrieLeafIff(paths, l);
    if Under(l, Trunk(t)) && !IsLeaf(t, l) {
      forall i | 0 <= i < |CompletedPaths(t)| { ThroughNone(t, l, i); }
    } else {
      var i := ThroughOne(t, l);
    }
  }

  /** What should be suggested: a beginning of some label that goes one segment past the last point where all
      labels agree; or, if they agree to the end, the whole of the longest. */
  ghost predicate Suggested(paths: seq<Path>, c: Path) {
    && c != [] && OnSome(paths, c) && AllComparable(paths, c[..|c| - 1])
    && (!AllComparable(paths, c) || !Extended(paths, c))
  }

  /** list_completions yields exactly what should be suggested. */
  lemma CompletionIff(paths: seq<Path>, c: Path)
    ensures c in CompletedPaths(Trie(paths)) <==> Suggested(paths, c)
  {
    var t := Trie(paths);
    TrieAt(paths, c);
    if c in CompletedPaths(t) {
      var i :| 0 <= i < |CompletedPaths(t)| && CompletedPaths(t)[i] == c;
      CompletionsLieOnLabels(paths, i);
      CompletionIsSuggested(paths, c);
    }
    if Suggested(paths, c) { SuggestedIsCompletion(paths, c); }
  }

  lemma ParentOnSome(paths: seq<Path>, c: Path)
    requires c != [] && OnSome(paths, c)
    ensures OnSome(paths, c[..|c| - 1])
  {
    var k :| k in paths && Under(c, k);
    assert k[..|c| - 1] == k[..|c|][..|c| - 1];
    assert Under(c[..|c| - 1], k);
  }

  lemma CompletionIsSuggested(paths: seq<Path>, c: Path)
    requires c in CompletedPaths(Trie(paths)) && OnSome(paths, c)
    ensures Suggested(paths, c)
  {
    var t := Trie(paths);
    var tr, end := Trunk(t), TrunkEnd(t);
    TrieAt(paths, []);
    TrunkIsThere(t);
    OnTrunkIff(paths, c);
    TrieLeafIff(paths, c);
    if NameSeq(end.kids) == [] {
      assert c == tr && tr[..|tr|] == tr && end.kids.Nil?;
      assert Under(c[..|c| - 1], tr);
    } else {
      var i :| 0 <= i < |NameSeq(end.kids)| && c == tr + [NameSeq(end.kids)[i]];
      assert c[..|c| - 1] == tr && tr[..|tr|] == tr;
    }
    ParentOnSome(paths, c);
    OnTrunkIff(paths, c[..|c| - 1]);
  }

  lemma SuggestedIsCompletion(paths: seq<Path>, c: Path)
    requires Suggested(paths, c)
    ensures c in CompletedPaths(Trie(paths))
  {
    var t, d := Trie(paths), c[..|c| - 1];
    var tr := Trunk(t);
    TrieAt(paths, c);
    ParentOnSome(paths, c);
    OnTrunkIff(paths, c);
    OnTrunkIff(paths, d);
    TrieLeafIff(paths, c);
    OnTrunkOrBeyond(t, c);
    TrunkIsThere(t);
    if Under(c, tr) {
      LeafEndsTrunk(t, c);
      assert CompletedPaths(t) == [c];
    } else {
      assert d == tr by { assert |d| == |tr| ==> d == tr[..|d|]; }
      var n := c[|tr|];
      assert c == tr + [n] && c[|tr|..] == [n];
      SubtreeWellFormed(t);
      NameSeqIs(TrunkEnd(t).kids);
      KidNamed(TrunkEnd(t).kids, n);
      var names := NameSeq(TrunkEnd(t).kids);
      var i :| 0 <= i < |names| && names[i] == n;
      assert CompletedPaths(t)[i] == c;
    }
  }

  // ------------------------------------------------------------------- main

  /** What the user typed, and the directory they are in. */
  datatype Query = Query(search: string, subdir: string) {
    predicate Relative() { !StartsWith(search, "//") }

    function Base(): string { if Relative() then "//" + subdir else "" }

    /** What a target must start with; None is the exception of concat_labels. */
    function Prefix(): Option<string> { if Relative() then ConcatLabels(Base(), search) else Some(search) }

    predicate Matches(target: string) { Prefix().Some? && StartsWith(target, Prefix().value) }

    /** A target as it is shown. */
    function Shown(target: string): string { if Relative() then MakeLabelRelative(Base(), target) else target }

    /** What is still to be completed of a target, in segments. */
    function Rest(target: string): Option<Path>
      requires Matches(target)
    {
      ShownStarts(this, target);
      SplitSegments(Shown(target)[|search|..])
    }
  }

  lemma ShownStarts(q: Query, target: string)
    requires q.Matches(target)
    ensures StartsWith(q.Shown(target), q.search)
  {
    if q.Relative() { MatchesKeepThePrefix(q.Base(), q.search, target); }
  }

  /** In a directory, what is typed is looked for among the labels below it and, after a colon, among its own
      targets; they are shown without the directory. No target elsewhere matches. */
  lemma MatchesBelow(q: Query, rest: string)
    requires q.Relative() && ':' !in q.subdir && q.search != "" && q.search[0] != '/'
    requires q.subdir != "" && q.subdir[|q.subdir| - 1] != '/'
    ensures q.search[0] != ':' ==> (q.Matches(q.Base() + "/" + rest) <==> StartsWith(rest, q.search))
    ensures q.search[0] == ':' ==> (q.Matches(q.Base() + ":" + rest) <==> StartsWith(":" + rest, q.search))
    ensures q.Shown(q.Base() + "/" + rest) == rest && q.Shown(q.Base() + ":" + rest) == ":" + rest
    ensures forall target :: q.Matches(target) ==> StartsWith(target, q.Base())
  {
    var base := q.Base();
    assert base[|base| - 1] == q.subdir[|q.subdir| - 1];
    ConcatBelow(base, q.search);
    assert base + "/" + rest == base + ("/" + rest) && base + ":" + rest == base + (":" + rest);
    StartsAfter(base, "/" + rest, "/" + q.search);
    StartsAfter("/", rest, q.search);
    StartsAfter(base, ":" + rest, q.search);
    RelativeBelow(base, rest);
    forall target | q.Matches(target)
      ensures StartsWith(target, base)
    {
      StartsLess(target, base, q.Prefix().value[|base|..]);
    }
  }

  lemma ConcatBelow(base: string, leaf: string)
    requires ':' !in base && base != "" && base[|base| - 1] != '/' && leaf != "" && leaf[0] != '/'
    ensures ConcatLabels(base, leaf) == Some(base + (if leaf[0] == ':' then leaf else "/" + leaf))
  {
    assert base + "/" + leaf == base + ("/" + leaf);
    assert leaf[..1] == [leaf[0]] && base[|base| - 1..] == [base[|base| - 1]];
  }

  lemma RelativeBelow(base: string, rest: string)
    ensures MakeLabelRelative(base, base + "/" + rest) == rest && MakeLabelRelative(base, base + ":" + rest) == ":" + rest
  {
    assert (base + "/" + rest)[|base|..] == "/" + rest && (base + ":" + rest)[|base|..] == ":" + rest;
    assert ("/" + rest)[1..] == rest;
  }

  lemma StartsLess(s: string, a: string, b: string)
    requires StartsWith(s, a + b)
    ensures StartsWith(s, a)
  {
    assert s[..|a|] == s[..|a + b|][..|a|] == (a + b)[..|a|];
  }

  lemma StartsAfter(front: string, s: string, t: string)
    ensures StartsWith(front + s, front + t) <==> StartsWith(s, t)
  {
    if |t| <= |s| { assert (front + s)[..|front + t|] == front + s[..|t|]; }
    if StartsWith(front + s, front + t) { assert (front + s[..|t|])[|front|..] == s[..|t|] && (front + t)[|front|..] == t; }
  }

  /** The segment paths that main inserts, in order. */
  function Inserted(q: Query, targets: seq<string>): Option<seq<Path>>
    decreases |targets|
  {
    if targets == [] then Some([])
    else
      var front, last := Inserted(q, targets[..|targets| - 1]), targets[|targets| - 1];
      if front.None? || !q.Matches(last) then front
      else if q.Rest(last).None? then None
      else Some(front.value + [q.Rest(last).value])
  }

  lemma {:induction false} InsertedStays(q: Query, targets: seq<string>, i: nat)
    requires i <= |targets| && Inserted(q, targets[..i]).None?
    ensures Inserted(q, targets).None?
    decreases |targets|
  {
    if i == |targets| {
      assert targets[..i] == targets;
    } else {
      assert targets[..|targets| - 1][..i] == targets[..i];
      InsertedStays(q, targets[..|targets| - 1], i);
    }
  }

  /** Nothing is inserted but the matching targets, and all of them. */
  lemma {:induction false} InsertedAre(q: Query, targets: seq<string>)
    requires Inserted(q, targets).Some?
    ensures forall p :: p in Inserted(q, targets).value ==> exists t :: t in targets && q.Matches(t) && q.Rest(t) == Some(p)
    ensures forall t :: t in targets && q.Matches(t) ==> q.Rest(t).Some? && q.Rest(t).value in Inserted(q, targets).value
    decreases |targets|
  {
    if targets != [] {
      var front, last := targets[..|targets| - 1], targets[|targets| - 1];
      assert targets == front + [last];
      InsertedAre(q, front);
    }
  }

  function Completed(q: Query, targets: seq<string>): Option<seq<string>> {
    if q.Prefix().None? || Inserted(q, targets).None? then None
    else Some(Spelled(q.search, CompletedPaths(Trie(Inserted(q, targets).value))))
  }

  /** main, up to printing; None is an exception on the way. */
  method Complete(q: Query, targets: seq<string>) returns (r: Option<seq<string>>)
    ensures r == Completed(q, targets)
  {
    if q.Prefix().None? { return None; }
    var t := EMPTY;
    ghost var paths: seq<Path> := [];
    for i := 0 to |targets|
      invariant Inserted(q, targets[..i]) == Some(paths) && t == Trie(paths)
    {
      assert targets[..i + 1][..i] == targets[..i];
      if q.Matches(targets[i]) {
        ShownStarts(q, targets[i]);
        var next := InsertLabel(q.search, t, q.Shown(targets[i]));
        if next.None? {
          InsertedStays(q, targets, i + 1);
          return None;
        }
        t := next.value;
        ghost var more := paths + [q.Rest(targets[i]).value];
        assert more[..|more| - 1] == paths;
        paths := more;
      }
    }
    assert targets[..|targets|] == targets;
    var shown := ListCompletions(q.search, t);
    return Some(shown);
  }

  /** A path extended is a label extended. */
  lemma CatUnder(a: Path, b: Path)
    requires Under(a, b)
    ensures StartsWith(Cat(b), Cat(a))
  {
    CatConcat(a, b[|a|..]);
    assert b == a + b[|a|..];
  }

  lemma RestSpelled(q: Query, target: string)
    requires q.Matches(target) && q.Rest(target).Some?
    ensures q.Shown(target) == q.search + Cat(q.Rest(target).value)
  {
    ShownStarts(q, target);
    SpelledAfter(q.Shown(target), q.search);
  }

  lemma SpelledAfter(s: string, front: string)
    requires StartsWith(s, front) && SplitSegments(s[|front|..]).Some?
    ensures s == front + Cat(SplitSegments(s[|front|..]).value)
  {
    var rest := s[|front|..];
    assert s == front + rest;
    SplitJoins(rest);
  }

  lemma UnderSpelled(q: Query, target: string, c: Path)
    requires q.Matches(target) && q.Rest(target).Some? && Under(c, q.Rest(target).value)
    ensures StartsWith(q.Shown(target), q.search + Cat(c))
  {
    RestSpelled(q, target);
    var whole := Cat(q.Rest(target).value);
    CatUnder(c, q.Rest(target).value);
    assert (q.search + whole)[..|q.search + Cat(c)|] == q.search + whole[..|Cat(c)|];
  }

  /** Every printed completion extends what the user typed, and some matching target, as it is shown,
      extends the completion. */
  lemma CompletionsExtendTheSearch(q: Query, targets: seq<string>, i: nat) returns (target: string)
    requires Completed(q, targets).Some? && i < |Completed(q, targets).value|
    ensures var c := Completed(q, targets).value[i];
            && StartsWith(c, q.search)
            && target in targets && q.Matches(target) && StartsWith(q.Shown(target), c)
  {
    var paths := Inserted(q, targets).value;
    CompletionsLieOnLabels(paths, i);
    InsertedAre(q, targets);
    var c := CompletedPaths(Trie(paths))[i];
    var l :| l in paths && Under(c, l);
    target :| target in targets && q.Matches(target) && q.Rest(target) == Some(l);
    UnderSpelled(q, target, c);
  }

  lemma CompletionOf(paths: seq<Path>, l: Path) returns (i: nat)
    requires l in paths && l != [] && !Swallowed(paths, l)
    ensures i < |CompletedPaths(Trie(paths))| && Under(CompletedPaths(Trie(paths))[i], l)
  {
    LabelPassesThroughOneIff(paths, l);
    i :| OnlyThrough(CompletedPaths(Trie(paths)), l, i);
  }

  lemma RestInserted(q: Query, targets: seq<string>, target: string)
    requires Inserted(q, targets).Some? && target in targets && q.Matches(target)
    ensures q.Rest(target).Some? && q.Rest(target).value != [] && q.Rest(target).value in Inserted(q, targets).value
  {
    InsertedAre(q, targets);
    ShownStarts(q, target);
    SplitJoins(q.Shown(target)[|q.search|..]);
  }

  /** Every matching target, as it is shown, extends a printed completion, unless a longer target
      continues it and nothing branches off before. */
  lemma MatchingTargetsAreReached(q: Query, targets: seq<string>, target: string) returns (i: nat)
    requires Completed(q, targets).Some? && target in targets && q.Matches(target)
    requires q.Rest(target).Some? && !Swallowed(Inserted(q, targets).value, q.Rest(target).value)
    ensures i < |Completed(q, targets).value| && StartsWith(q.Shown(target), Completed(q, targets).value[i])
  {
    RestInserted(q, targets, target);
    var paths := Inserted(q, targets).value;
    i := CompletionOf(paths, q.Rest(target).value);
    UnderSpelled(q, target, CompletedPaths(Trie(paths))[i]);
  }
}
