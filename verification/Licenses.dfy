/** tools/check-licenses: workers that search files concurrently and record what they find in a
    shared table of matches (license.go, match.go, licenses.go). */
module LicenseKeys {
  import opened Text

  // ----------------------------------------------------------------- hash

  /** unicode.IsSpace */
  predicate IsSpace(c: char) {
    var n := c as int;
    || 9 <= n <= 13 || n == 0x20 || n == 0x85 || n == 0xA0 || n == 0x1680 || 0x2000 <= n <= 0x200A
    || n == 0x2028 || n == 0x2029 || n == 0x202F || n == 0x205F || n == 0x3000
  }

  /** strings.ReplaceAll(s, "//", " ") */
  function DropSlashes(s: string): string
    decreases |s|
  {
    if s == "" then ""
    else if StartsWith(s, "//") then " " + DropSlashes(s[2..])
    else [s[0]] + DropSlashes(s[1..])
  }

  function Blank(s: string, c: char): string {
    if s == "" then "" else [if s[0] == c then ' ' else s[0]] + Blank(s[1..], c)
  }

  /** The bullets `*` and `-` blanked. */
  function Cleared(s: string): string { Blank(Blank(s, '*'), '-') }

  /** strings.Fields: the maximal runs of non-space characters. `word` is the run being read. */
  function Fields(s: string, word: string): seq<string>
    decreases |s|
  {
    if s == "" then (if word == "" then [] else [word])
    else if IsSpace(s[0]) then (if word == "" then [] else [word]) + Fields(s[1..], "")
    else Fields(s[1..], word + [s[0]])
  }

  /** The words of a license text that count for deduplication. */
  function Words(text: string): seq<string> {
    Fields(Cleared(DropSlashes(Blank(text, '#'))), "")
  }

  function Hash(text: string): string {
    var ws := Words(text); if ws == [] then "" else Join(ws, ' ')
  }

  lemma {:induction false} FieldsAreWords(s: string, word: string)
    requires forall c :: c in word ==> !IsSpace(c)
    ensures forall w :: w in Fields(s, word) ==> w != "" && forall c :: c in w ==> !IsSpace(c)
    decreases |s|
  {
    if s != "" {
      if IsSpace(s[0]) { FieldsAreWords(s[1..], ""); } else { FieldsAreWords(s[1..], word + [s[0]]); }
    }
  }

  // ------------------------------------------------------------- what separates words

  lemma {:induction false} BlankConcat(a: string, b: string, c: char)
    ensures Blank(a + b, c) == Blank(a, c) + Blank(b, c)
    decreases |a|
  {
    if a == "" {
      assert a + b == b;
    } else {
      assert (a + b)[0] == a[0] && (a + b)[1..] == a[1..] + b;
      BlankConcat(a[1..], b, c);
    }
  }

  lemma BlankBreak(a: string, x: char, b: string, c: char)
    ensures Blank(a + [x] + b, c) == Blank(a, c) + [if x == c then ' ' else x] + Blank(b, c)
  {
    BlankConcat(a + [x], b, c);
    BlankConcat(a, [x], c);
    assert [x][1..] == "";
  }

  lemma {:induction false} DropSlashesBreak(a: string, x: char, b: string)
    requires x != '/'
    ensures DropSlashes(a + [x] + b) == DropSlashes(a) + [x] + DropSlashes(b)
    decreases |a|
  {
    var s := a + [x] + b;
    if a == "" {
      assert s[0] == x && s[1..] == b;
    } else if StartsWith(a, "//") {
      assert s[..2] == a[..2] && s[2..] == a[2..] + [x] + b;
      DropSlashesBreak(a[2..], x, b);
    } else {
      assert s[0] == a[0] && s[1..] == a[1..] + [x] + b;
      if |a| > 1 { assert s[..2] == a[..2]; } else { assert s[1] == x; }
      DropSlashesBreak(a[1..], x, b);
    }
  }

  lemma {:induction false} DropSlashesPair(a: string, b: string)
    requires a == "" || a[|a| - 1] != '/'
    ensures DropSlashes(a + "//" + b) == DropSlashes(a) + " " + DropSlashes(b)
    decreases |a|
  {
    var s := a + "//" + b;
    if a == "" {
      assert s[..2] == "//" && s[2..] == b;
    } else if StartsWith(a, "//") {
      assert a[1] == '/';
      assert s[..2] == a[..2] && s[2..] == a[2..] + "//" + b;
      DropSlashesPair(a[2..], b);
    } else {
      assert s[0] == a[0] && s[1..] == a[1..] + "//" + b;
      if |a| > 1 { assert s[..2] == a[..2]; }
      DropSlashesPair(a[1..], b);
    }
  }

  lemma {:induction false} FieldsBreak(a: string, x: char, b: string, word: string)
    requires IsSpace(x)
    ensures Fields(a + [x] + b, word) == Fields(a, word) + Fields(b, "")
    decreases |a|
  {
    var s := a + [x] + b;
    if a == "" {
      assert s[0] == x && s[1..] == b;
    } else {
      assert s[0] == a[0] && s[1..] == a[1..] + [x] + b;
      if IsSpace(a[0]) { FieldsBreak(a[1..], x, b, ""); } else { FieldsBreak(a[1..], x, b, word + [a[0]]); }
    }
  }

  lemma ClearedBreak(a: string, x: char, b: string)
    requires IsSpace(x) || x == '*' || x == '-'
    ensures exists y :: IsSpace(y) && Cleared(a + [x] + b) == Cleared(a) + [y] + Cleared(b)
  {
    BlankBreak(a, x, b, '*');
    var x' := if x == '*' then ' ' else x;
    BlankBreak(Blank(a, '*'), x', Blank(b, '*'), '-');
    var y := if x' == '-' then ' ' else x';
    assert IsSpace(y) && Cleared(a + [x] + b) == Cleared(a) + [y] + Cleared(b);
  }

  lemma FieldsOfCleared(a: string, x: char, b: string)
    requires IsSpace(x) || x == '*' || x == '-'
    ensures Fields(Cleared(a + [x] + b), "") == Fields(Cleared(a), "") + Fields(Cleared(b), "")
  {
    ClearedBreak(a, x, b);
    var y :| IsSpace(y) && Cleared(a + [x] + b) == Cleared(a) + [y] + Cleared(b);
    FieldsBreak(Cleared(a), y, Cleared(b), "");
  }

  /** What ends a word by itself. */
  predicate Separates(x: char) { IsSpace(x) || x == '#' || x == '*' || x == '-' }

  /** A space, a `#`, a `*` or a `-` separates words and is part of none. */
  lemma WordsAtSeparator(a: string, x: char, b: string)
    requires Separates(x)
    ensures Words(a + [x] + b) == Words(a) + Words(b)
  {
    BlankBreak(a, x, b, '#');
    var x' := if x == '#' then ' ' else x;
    DropSlashesBreak(Blank(a, '#'), x', Blank(b, '#'));
    FieldsOfCleared(DropSlashes(Blank(a, '#')), x', DropSlashes(Blank(b, '#')));
  }

  lemma {:induction false} BlankEnd(a: string, c: char)
    requires a != ""
    ensures |Blank(a, c)| == |a| && (c != '/' && a[|a| - 1] != '/' ==> Blank(a, c)[|a| - 1] != '/')
  {
    if |a| > 1 { BlankEnd(a[1..], c); }
  }

  /** So do two slashes, if no slash comes before them. */
  lemma WordsAtSlashes(a: string, b: string)
    requires a == "" || a[|a| - 1] != '/'
    ensures Words(a + "//" + b) == Words(a) + Words(b)
  {
    var a', b' := Blank(a, '#'), Blank(b, '#');
    if a != "" { BlankEnd(a, '#'); }
    BlankConcat(a + "//", b, '#');
    BlankConcat(a, "//", '#');
    assert Blank("//", '#') == "//" by { assert "//"[1..] == "/" && "/"[1..] == ""; }
    DropSlashesPair(a', b');
    FieldsOfCleared(DropSlashes(a'), ' ', DropSlashes(b'));
  }

  lemma {:induction false} BlankNothing(w: string, c: char)
    requires c !in w
    ensures Blank(w, c) == w
  {
    if w != "" { BlankNothing(w[1..], c); }
  }

  ghost predicate NoPair(w: string) { forall i {:trigger w[i]} :: 0 <= i < |w| - 1 ==> w[i] != '/' || w[i + 1] != '/' }

  lemma {:induction false} DropNothing(w: string)
    requires NoPair(w)
    ensures DropSlashes(w) == w
  {
    if w != "" {
      DropNothing(w[1..]);
    }
  }

  lemma {:induction false} FieldsOfWord(w: string, word: string)
    requires word + w != "" && forall c :: c in w ==> !IsSpace(c)
    ensures Fields(w, word) == [word + w]
    decreases |w|
  {
    if w == "" {
      assert word + w == word;
    } else {
      assert word + w == (word + [w[0]]) + w[1..];
      FieldsOfWord(w[1..], word + [w[0]]);
    }
  }

  /** Nothing else does: a text with none of these in it is a word. */
  lemma OneWord(w: string)
    requires w != "" && (forall c :: c in w ==> !Separates(c)) && NoPair(w)
    ensures Words(w) == [w]
  {
    BlankNothing(w, '#');
    DropNothing(w);
    BlankNothing(w, '*');
    BlankNothing(w, '-');
    assert "" + w == w;
    FieldsOfWord(w, "");
  }

  /** Putting any separator for another, or a run of spaces for one, leaves the key. */
  lemma SeparatorsAreAlike(a: string, x: char, y: char, z: char, b: string)
    requires Separates(x) && Separates(y) && Separates(z)
    ensures Hash(a + [x] + b) == Hash(a + [y] + b) == Hash(a + [x] + ([z] + b))
    ensures a == "" || a[|a| - 1] != '/' ==> Hash(a + "//" + b) == Hash(a + [x] + b)
  {
    WordsAtSeparator(a, x, b);
    WordsAtSeparator(a, y, b);
    WordsAtSeparator(a, x, [z] + b);
    WordsAtSeparator("", z, b);
    assert "" + [z] + b == [z] + b && Words("") == [] && [] + Words(b) == Words(b);
    if a == "" || a[|a| - 1] != '/' { WordsAtSlashes(a, b); }
  }

  /** Two texts share a key exactly when they have the same words. */
  lemma SameKeyIffSameWords(a: string, b: string)
    ensures Hash(a) == Hash(b) <==> Words(a) == Words(b)
  {
    KeyDeterminesWords(a);
    KeyDeterminesWords(b);
  }

  lemma KeyDeterminesWords(a: string)
    ensures Words(a) == if Hash(a) == "" then [] else Split(Hash(a), ' ')
  {
    var ws := Words(a);
    FieldsAreWords(Cleared(DropSlashes(Blank(a, '#'))), "");
    if ws != [] {
      assert ws[0] in ws && ws[0] != "";
      assert |Join(ws, ' ')| > 0;
      forall w | w in ws
        ensures ' ' !in w
      {
        assert IsSpace(' ');
      }
      SplitJoin(ws, ' ');
    }
  }
}

module LicenseTable {
  import opened Basics

  /** What the table holds under one key. */
  datatype Entry = Entry(copyrights: set<string>, text: string, files: seq<string>, used: bool)

  type Table = map<string, Entry>

  /** What one worker does to the table: record a match under the license's lock, and mark the match
      it got back as used. */
  datatype Op = Found(key: string, text: string, copyright: string, file: string) | Mark(key: string)

  function NewMatch(op: Op): Entry
    requires op.Found?
  {
    Entry({op.copyright}, op.text, [op.file], false)
  }

  function Merged(e: Entry, other: Entry): Entry {
    Entry(e.copyrights + other.copyrights, e.text, e.files + other.files, e.used || other.used)
  }

  function Apply(t: Table, op: Op): Table {
    var k := op.key;
    match op
    case Found(_, _, _, _) => t[k := if k in t then Merged(t[k], NewMatch(op)) else NewMatch(op)]
    case Mark(_) => if k in t then t[k := t[k].(used := true)] else t
  }

  function Run(ops: seq<Op>): Table
    decreases |ops|
  {
    if ops == [] then map[] else Apply(Run(ops[..|ops| - 1]), ops[|ops| - 1])
  }

  // -------------------------------------------- what the table says about the run

  predicate Finds(op: Op, key: string) { op.Found? && op.key == key }

  function FileOf(op: Op, key: string): multiset<string> { if Finds(op, key) then multiset{op.file} else multiset{} }

  /** The files found under `key`, each as often as it was found. */
  function FilesUnder(ops: seq<Op>, key: string): multiset<string>
    decreases |ops|
  {
    if ops == [] then multiset{} else FilesUnder(ops[..|ops| - 1], key) + FileOf(ops[|ops| - 1], key)
  }

  /** Some operation finds `key`. */
  ghost predicate Seen(ops: seq<Op>, key: string) { exists op :: op in ops && Finds(op, key) }

  /** Some operation finds `key` with this copyright. */
  ghost predicate Claims(ops: seq<Op>, key: string, c: string) { exists op :: op in ops && Finds(op, key) && op.copyright == c }

  /** A worker marks only what it has found. */
  ghost predicate WellScheduled(ops: seq<Op>) {
    forall i :: 0 <= i < |ops| && ops[i].Mark? ==> Seen(ops[..i], ops[i].key)
  }

  /** The text of the first find of `key`, if there is one. */
  function FirstFind(ops: seq<Op>, key: string): Option<string> {
    if ops == [] then None else if Finds(ops[0], key) then Some(ops[0].text) else FirstFind(ops[1..], key)
  }

  lemma {:induction false} FirstFindConcat(a: seq<Op>, b: seq<Op>, key: string)
    ensures FirstFind(a + b, key) == if FirstFind(a, key).Some? then FirstFind(a, key) else FirstFind(b, key)
  {
    if a == [] {
      assert a + b == b;
    } else {
      assert (a + b)[0] == a[0] && (a + b)[1..] == a[1..] + b;
      FirstFindConcat(a[1..], b, key);
    }
  }

  lemma FirstFindSnoc(front: seq<Op>, op: Op, key: string)
    ensures FirstFind(front + [op], key) ==
            if FirstFind(front, key).Some? then FirstFind(front, key) else if Finds(op, key) then Some(op.text) else None
  {
    FirstFindConcat(front, [op], key);
    assert [op][1..] == [];
  }

  lemma {:induction false} FirstFindIfSeen(ops: seq<Op>, key: string)
    ensures FirstFind(ops, key).Some? <==> Seen(ops, key)
  {
    if ops != [] {
      assert ops == [ops[0]] + ops[1..];
      FirstFindIfSeen(ops[1..], key);
    }
  }

  /** The entry for `key` after a run: nothing is lost, every match is recorded once, marks stay. */
  ghost predicate Records(ops: seq<Op>, key: string, t: Table) {
    && (key in t <==> Seen(ops, key))
    && (key in t ==>
          && multiset(t[key].files) == FilesUnder(ops, key)
          && (forall c :: c in t[key].copyrights <==> Claims(ops, key, c))
          && (t[key].used <==> Mark(key) in ops)
          && FirstFind(ops, key) == Some(t[key].text))
  }

  lemma {:induction false} NoFilesUnder(ops: seq<Op>, key: string)
    requires !Seen(ops, key)
    ensures FilesUnder(ops, key) == multiset{}
    decreases |ops|
  {
    if ops != [] {
      assert ops == ops[..|ops| - 1] + [ops[|ops| - 1]];
      NoFilesUnder(ops[..|ops| - 1], key);
    }
  }

  lemma SnocFacts(front: seq<Op>, op: Op, key: string)
    ensures var ops := front + [op];
            && (Seen(ops, key) <==> Seen(front, key) || Finds(op, key))
            && (forall c :: Claims(ops, key, c) <==> Claims(front, key, c) || (Finds(op, key) && op.copyright == c))
            && FilesUnder(ops, key) == FilesUnder(front, key) + FileOf(op, key)
            && (Mark(key) in ops <==> Mark(key) in front || op == Mark(key))
  {
    var ops := front + [op];
    assert ops[..|ops| - 1] == front;
    assert forall x :: x in ops <==> x in front || x == op;
  }

  lemma {:induction false} UnfoundUnmarked(ops: seq<Op>, key: string)
    requires WellScheduled(ops) && !Seen(ops, key)
    ensures Mark(key) !in ops
  {
    forall i | 0 <= i < |ops|
      ensures ops[i] != Mark(key)
    {
      assert forall op :: op in ops[..i] ==> op in ops;
    }
  }

  lemma RecordsFind(front: seq<Op>, op: Op, key: string, t: Table)
    requires Records(front, key, t) && WellScheduled(front) && Finds(op, key)
    ensures Records(front + [op], key, Apply(t, op))
  {
    SnocFacts(front, op, key);
    FirstFindSnoc(front, op, key);
    if key in t {
      assert multiset(t[key].files + [op.file]) == multiset(t[key].files) + multiset{op.file};
    } else {
      NoFilesUnder(front, key);
      UnfoundUnmarked(front, key);
      FirstFindIfSeen(front, key);
      assert forall c :: !Claims(front, key, c);
      assert multiset([op.file]) == multiset{} + multiset{op.file};
    }
  }

  lemma RecordsOther(front: seq<Op>, op: Op, key: string, t: Table)
    requires Records(front, key, t) && WellScheduled(front) && !Finds(op, key)
    requires op.Mark? ==> Seen(front, op.key)
    ensures Records(front + [op], key, Apply(t, op))
  {
    SnocFacts(front, op, key);
    assert FilesUnder(front, key) + multiset{} == FilesUnder(front, key);
    FirstFindSnoc(front, op, key);
  }

  lemma PrefixWellScheduled(s: seq<Op>, n: nat)
    requires WellScheduled(s) && n <= |s|
    ensures WellScheduled(s[..n])
  {
    forall i | 0 <= i < n && s[..n][i].Mark?
      ensures Seen(s[..n][..i], s[..n][i].key)
    {
      assert s[..n][..i] == s[..i];
    }
  }

  lemma {:induction false} RunRecords(ops: seq<Op>, key: string)
    requires WellScheduled(ops)
    ensures Records(ops, key, Run(ops))
    decreases |ops|
  {
    if ops != [] {
      var n := |ops| - 1;
      PrefixWellScheduled(ops, n);
      RunRecords(ops[..n], key);
      if Finds(ops[n], key) { RecordsFind(ops[..n], ops[n], key, Run(ops[..n])); }
      else { RecordsOther(ops[..n], ops[n], key, Run(ops[..n])); }
      assert ops == ops[..n] + [ops[n]];
    }
  }

  // ---------------------------------------------------------- order independence

  lemma Assoc<T>(a: multiset<T>, b: multiset<T>, c: multiset<T>)
    ensures a + b + c == a + (b + c)
  {
  }

  lemma Swap<T>(a: multiset<T>, b: multiset<T>, c: multiset<T>)
    ensures a + b + c == a + c + b
  {
  }

  lemma Cancel<T>(a: multiset<T>, b: multiset<T>, c: multiset<T>)
    requires a + c == b + c
    ensures a == b
  {
    forall x
      ensures a[x] == b[x]
    {
      assert (a + c)[x] == (b + c)[x];
    }
  }

  lemma {:induction false} FilesUnderConcat(a: seq<Op>, b: seq<Op>, key: string)
    ensures FilesUnder(a + b, key) == FilesUnder(a, key) + FilesUnder(b, key)
    decreases |b|
  {
    if b == [] {
      assert a + b == a;
    } else {
      var n := |b| - 1;
      FilesUnderConcat(a, b[..n], key);
      assert (a + b)[..|a + b| - 1] == a + b[..n] && (a + b)[|a + b| - 1] == b[n];
      Assoc(FilesUnder(a, key), FilesUnder(b[..n], key), FileOf(b[n], key));
    }
  }

  lemma {:induction false} FilesUnderPermuted(a: seq<Op>, b: seq<Op>, key: string)
    requires multiset(a) == multiset(b)
    ensures FilesUnder(a, key) == FilesUnder(b, key)
    decreases |a|
  {
    if a == [] {
      assert |multiset(b)| == 0;
    } else {
      var front, x := a[..|a| - 1], a[|a| - 1];
      assert a == front + [x];
      assert x in multiset(b);
      var i :| 0 <= i < |b| && b[i] == x;
      var l, r := b[..i], b[i + 1..];
      assert b == l + [x] + r;
      RemoveSame(front, x, l, r);
      FilesUnderPermuted(front, l + r, key);
      FilesUnderConcat(l, r, key);
      FilesUnderConcat(l + [x], r, key);
      assert (l + [x])[..|l|] == l;
      Swap(FilesUnder(l, key), FileOf(x, key), FilesUnder(r, key));
    }
  }

  lemma RemoveSame(front: seq<Op>, x: Op, l: seq<Op>, r: seq<Op>)
    requires multiset(front + [x]) == multiset(l + [x] + r)
    ensures multiset(front) == multiset(l + r)
  {
    assert multiset(front + [x]) == multiset(front) + multiset{x};
    assert multiset(l + [x] + r) == multiset(l) + multiset{x} + multiset(r);
    Swap(multiset(l), multiset{x}, multiset(r));
    Cancel(multiset(front), multiset(l) + multiset(r), multiset{x});
  }

  /** Entries that agree on everything but the order of files and the spelling of the text. */
  ghost predicate SameRecord(a: Table, b: Table, key: string) {
    && (key in a <==> key in b)
    && (key in a ==>
          && multiset(a[key].files) == multiset(b[key].files)
          && a[key].copyrights == b[key].copyrights
          && a[key].used == b[key].used)
  }

  lemma PermutedRunsAgree(a: seq<Op>, b: seq<Op>, key: string)
    requires multiset(a) == multiset(b) && WellScheduled(a) && WellScheduled(b)
    ensures SameRecord(Run(a), Run(b), key)
  {
    RunRecords(a, key);
    RunRecords(b, key);
    FilesUnderPermuted(a, b, key);
    PermutedMembers(a, b);
    if key in Run(a) {
      assert forall c :: Claims(a, key, c) <==> Claims(b, key, c);
    }
  }

  lemma PermutedMembers(a: seq<Op>, b: seq<Op>)
    requires multiset(a) == multiset(b)
    ensures forall op :: op in a <==> op in b
  {
    forall op
      ensures op in a <==> op in b
    {
      assert op in a <==> op in multiset(a);
      assert op in b <==> op in multiset(b);
    }
  }

  // ---------------------------------------------------------- workers and schedules

  /** The last thing worker `w` does is `op`. */
  ghost predicate LastOf(workers: seq<seq<Op>>, w: nat, op: Op) {
    w < |workers| && workers[w] != [] && workers[w][|workers[w]| - 1] == op
  }

  ghost function DropLast(workers: seq<seq<Op>>, w: nat): seq<seq<Op>>
    requires w < |workers| && workers[w] != []
  {
    workers[w := workers[w][..|workers[w]| - 1]]
  }

  /** `ops` is an interleaving of what the workers do, each in its own order. */
  ghost predicate Interleaves(workers: seq<seq<Op>>, ops: seq<Op>)
    decreases |ops|
  {
    if ops == [] then forall w :: 0 <= w < |workers| ==> workers[w] == []
    else exists w: nat :: LastOf(workers, w, ops[|ops| - 1]) && Interleaves(DropLast(workers, w), ops[..|ops| - 1])
  }

  function AllOps(workers: seq<seq<Op>>): multiset<Op> {
    if workers == [] then multiset{} else multiset(workers[0]) + AllOps(workers[1..])
  }

  /** Taking the last operation off one worker. */
  lemma {:induction false} AllOpsUpdate(workers: seq<seq<Op>>, w: nat, s: seq<Op>, op: Op)
    requires w < |workers| && workers[w] == s + [op]
    ensures AllOps(workers) == AllOps(workers[w := s]) + multiset{op}
  {
    var after := workers[w := s];
    if w == 0 {
      assert after[1..] == workers[1..];
      assert multiset(workers[0]) == multiset(s) + multiset{op};
      Swap(multiset(s), multiset{op}, AllOps(workers[1..]));
    } else {
      AllOpsUpdate(workers[1..], w - 1, s, op);
      assert after[0] == workers[0] && after[1..] == workers[1..][w - 1 := s];
      Assoc(multiset(workers[0]), AllOps(after[1..]), multiset{op});
    }
  }

  lemma {:induction false} AllOpsEmpty(workers: seq<seq<Op>>)
    requires forall w :: 0 <= w < |workers| ==> workers[w] == []
    ensures AllOps(workers) == multiset{}
  {
    if workers != [] { AllOpsEmpty(workers[1..]); }
  }

  ghost predicate AllWellScheduled(workers: seq<seq<Op>>) {
    forall w :: 0 <= w < |workers| ==> WellScheduled(workers[w])
  }

  /** No interleaving loses or duplicates an operation, or lets a mark come before its find. */
  lemma {:induction false} InterleavingFacts(workers: seq<seq<Op>>, ops: seq<Op>)
    requires Interleaves(workers, ops) && AllWellScheduled(workers)
    ensures multiset(ops) == AllOps(workers)
    ensures WellScheduled(ops)
    decreases |ops|
  {
    if ops == [] {
      AllOpsEmpty(workers);
    } else {
      var n := |ops| - 1;
      var w: nat :| LastOf(workers, w, ops[n]) && Interleaves(DropLast(workers, w), ops[..n]);
      DropLastWellScheduled(workers, w);
      InterleavingFacts(DropLast(workers, w), ops[..n]);
      InterleavingStep(workers, w, DropLast(workers, w)[w], ops[..n], ops[n]);
      assert ops == ops[..n] + [ops[n]];
    }
  }

  lemma DropLastWellScheduled(workers: seq<seq<Op>>, w: nat)
    requires w < |workers| && workers[w] != [] && AllWellScheduled(workers)
    ensures AllWellScheduled(DropLast(workers, w))
    ensures workers[w] == DropLast(workers, w)[w] + [workers[w][|workers[w]| - 1]]
    ensures DropLast(workers, w) == workers[w := DropLast(workers, w)[w]]
  {
    PrefixWellScheduled(workers[w], |workers[w]| - 1);
  }

  lemma InterleavingStep(workers: seq<seq<Op>>, w: nat, s: seq<Op>, front: seq<Op>, op: Op)
    requires w < |workers| && workers[w] == s + [op] && WellScheduled(s + [op])
    requires multiset(front) == AllOps(workers[w := s]) && WellScheduled(front)
    ensures multiset(front + [op]) == AllOps(workers) && WellScheduled(front + [op])
  {
    AllOpsUpdate(workers, w, s, op);
    AllOpsHas(workers[w := s], w);
    assert (s + [op])[|s|] == op && (s + [op])[..|s|] == s;
    SnocWellScheduled(front, op, s);
  }

  lemma SnocWellScheduled(front: seq<Op>, op: Op, s: seq<Op>)
    requires WellScheduled(front) && multiset(s) <= multiset(front) && (op.Mark? ==> Seen(s, op.key))
    ensures WellScheduled(front + [op])
  {
    var ops := front + [op];
    forall i | 0 <= i < |ops| && ops[i].Mark?
      ensures Seen(ops[..i], ops[i].key)
    {
      if i < |front| {
        assert ops[..i] == front[..i];
      } else {
        var x :| x in s && Finds(x, op.key);
        assert x in multiset(s);
        assert x in front && ops[..i] == front;
      }
    }
  }

  lemma {:induction false} AllOpsHas(workers: seq<seq<Op>>, w: nat)
    requires w < |workers|
    ensures multiset(workers[w]) <= AllOps(workers)
  {
    if w > 0 { AllOpsHas(workers[1..], w - 1); }
  }

  /** However the workers are scheduled, the table ends with the same keys, and under each key the same
      files as often, the same copyrights and the same Used mark. */
  lemma AnyScheduleSameTable(workers: seq<seq<Op>>, a: seq<Op>, b: seq<Op>, key: string)
    requires Interleaves(workers, a) && Interleaves(workers, b)
    requires AllWellScheduled(workers)
    ensures SameRecord(Run(a), Run(b), key)
  {
    InterleavingFacts(workers, a);
    InterleavingFacts(workers, b);
    PermutedRunsAgree(a, b, key);
  }

  // --------------------------------------------------------- what does depend on order

  /** The text kept under `key`, if anything is. */
  function TextOf(ops: seq<Op>, key: string): Option<string> {
    var t := Run(ops); if key in t then Some(t[key].text) else None
  }

  /** The table keeps the text found first. */
  lemma {:induction false} TextIsFirst(ops: seq<Op>, key: string)
    ensures TextOf(ops, key) == FirstFind(ops, key)
    decreases |ops|
  {
    if ops != [] {
      var front, op := ops[..|ops| - 1], ops[|ops| - 1];
      TextIsFirst(front, key);
      FirstFindSnoc(front, op, key);
      assert ops == front + [op];
    }
  }

  /** The first find of an interleaving is the first find of the worker it comes from. */
  lemma {:induction false} FirstFindOfSome(workers: seq<seq<Op>>, ops: seq<Op>, key: string) returns (w: nat)
    requires Interleaves(workers, ops)
    ensures FirstFind(ops, key).None? ==> forall v :: 0 <= v < |workers| ==> FirstFind(workers[v], key).None?
    ensures FirstFind(ops, key).Some? ==> w < |workers| && FirstFind(workers[w], key) == FirstFind(ops, key)
    decreases |ops|
  {
    w := 0;
    if ops != [] {
      var front, op := ops[..|ops| - 1], ops[|ops| - 1];
      var v: nat :| LastOf(workers, v, op) && Interleaves(DropLast(workers, v), front);
      var before := DropLast(workers, v);
      w := FirstFindOfSome(before, front, key);
      FirstFindSnoc(front, op, key);
      FirstFindSnoc(before[v], op, key);
      assert ops == front + [op] && workers[v] == before[v] + [op];
      if FirstFind(front, key).None? { w := v; }
      forall u | 0 <= u < |workers| && FirstFind(ops, key).None?
        ensures FirstFind(workers[u], key).None?
      {
        assert FirstFind(before[u], key).None?;
      }
    }
  }

  /** Some interleaving there always is. */
  lemma {:induction false} SomeInterleaving(workers: seq<seq<Op>>) returns (ops: seq<Op>)
    ensures Interleaves(workers, ops)
    decreases |AllOps(workers)|
  {
    if w: nat :| w < |workers| && workers[w] != [] {
      var s, op := workers[w][..|workers[w]| - 1], workers[w][|workers[w]| - 1];
      assert workers[w] == s + [op];
      AllOpsUpdate(workers, w, s, op);
      var front := SomeInterleaving(DropLast(workers, w));
      ops := front + [op];
      assert ops[..|ops| - 1] == front && LastOf(workers, w, ops[|ops| - 1]);
    } else {
      ops := [];
    }
  }

  /** A worker may run to its end before the others start. */
  lemma {:induction false} RunsFirst(workers: seq<seq<Op>>, w: nat, rest: seq<Op>)
    requires w < |workers| && Interleaves(workers[w := []], rest)
    ensures Interleaves(workers, workers[w] + rest)
    decreases |rest|
  {
    if rest == [] {
      assert workers[w] + rest == workers[w];
      forall v | 0 <= v < |workers| && v != w
        ensures workers[v] == []
      {
        assert workers[w := []][v] == [];
      }
      RunsAlone(workers, w);
    } else {
      var front, op := rest[..|rest| - 1], rest[|rest| - 1];
      var v: nat :| LastOf(workers[w := []], v, op) && Interleaves(DropLast(workers[w := []], v), front);
      assert DropLast(workers[w := []], v) == DropLast(workers, v)[w := []];
      RunsFirst(DropLast(workers, v), w, front);
      var ops := workers[w] + rest;
      assert ops[..|ops| - 1] == workers[w] + front && LastOf(workers, v, ops[|ops| - 1]);
    }
  }

  lemma {:induction false} RunsAlone(workers: seq<seq<Op>>, w: nat)
    requires w < |workers| && forall v :: 0 <= v < |workers| && v != w ==> workers[v] == []
    ensures Interleaves(workers, workers[w])
    decreases |workers[w]|
  {
    if workers[w] != [] {
      RunsAlone(DropLast(workers, w), w);
      assert LastOf(workers, w, workers[w][|workers[w]| - 1]);
    }
  }

  /** A schedule in which the table keeps the text that worker `w` finds first. */
  lemma KeepsTextOf(workers: seq<seq<Op>>, w: nat, key: string) returns (ops: seq<Op>)
    requires w < |workers| && FirstFind(workers[w], key).Some?
    ensures Interleaves(workers, ops) && TextOf(ops, key) == FirstFind(workers[w], key)
  {
    var rest := SomeInterleaving(workers[w := []]);
    ops := workers[w] + rest;
    RunsFirst(workers, w, rest);
    FirstFindConcat(workers[w], rest, key);
    TextIsFirst(ops, key);
  }

  /** The workers that find `key` all find it first with the same text. */
  ghost predicate SameFirstText(workers: seq<seq<Op>>, key: string) {
    forall v, w :: 0 <= v < |workers| && 0 <= w < |workers| && FirstFind(workers[v], key).Some? && FirstFind(workers[w], key).Some? ==>
      FirstFind(workers[v], key) == FirstFind(workers[w], key)
  }

  /** The text kept under a key does not depend on how the workers are scheduled if and only if all
      workers that find the key find it first with the same text. */
  lemma TextScheduleFreeIff(workers: seq<seq<Op>>, key: string)
    ensures SameFirstText(workers, key) <==>
            forall a, b :: Interleaves(workers, a) && Interleaves(workers, b) ==> TextOf(a, key) == TextOf(b, key)
  {
    if SameFirstText(workers, key) {
      forall a, b | Interleaves(workers, a) && Interleaves(workers, b)
        ensures TextOf(a, key) == TextOf(b, key)
      {
        TextIsFirst(a, key);
        TextIsFirst(b, key);
        var v := FirstFindOfSome(workers, a, key);
        var w := FirstFindOfSome(workers, b, key);
      }
    } else {
      var v: nat, w: nat :| v < |workers| && w < |workers| && FirstFind(workers[v], key).Some? && FirstFind(workers[w], key).Some? &&
                            FirstFind(workers[v], key) != FirstFind(workers[w], key);
      var a := KeepsTextOf(workers, v, key);
      var b := KeepsTextOf(workers, w, key);
    }
  }
}

/** The objects themselves: a License owns a map of shared, mutable Matches. */
module LicenseObjects {
  import opened Basics
  import opened LicenseKeys
  import opened LicenseTable

  class Match {
    var copyrights: set<string>
    var text: string
    var projects: seq<string>
    var files: seq<string>
    var licenseAppliesToFiles: seq<string>
    var used: bool

    ghost function View(): Entry
      reads this
    {
      Entry(copyrights, text, files, used)
    }

    /** NewMatch, on the named groups of a regular expression match. */
    constructor (text: string, copyright: string, file: string)
      ensures View() == Entry({copyright}, text, [file], false)
      ensures projects == [] && licenseAppliesToFiles == []
    {
      this.copyrights, this.text, this.files, this.used := {copyright}, text, [file], false;
      projects, licenseAppliesToFiles := [], [];
    }

    method Merge(other: Match)
      requires other != this
      modifies this
      ensures View() == Merged(old(View()), other.View())
      ensures projects == old(projects) + other.projects
      ensures licenseAppliesToFiles == old(licenseAppliesToFiles) + other.licenseAppliesToFiles
    {
      copyrights := copyrights + other.copyrights;
      projects := projects + other.projects;
      files := files + other.files;
      licenseAppliesToFiles := licenseAppliesToFiles + other.licenseAppliesToFiles;
      used := used || other.used;
    }
  }

  class License {
    var matches: map<string, Match>

    /** Different keys hold different objects. */
    ghost predicate Valid()
      reads this
    {
      forall k, k' :: k in matches && k' in matches && k != k' ==> matches[k] != matches[k']
    }

    ghost function View(): Table
      reads this, matches.Values
    {
      map k | k in matches :: matches[k].View()
    }

    constructor ()
      ensures Valid() && View() == map[]
    {
      matches := map[];
    }

    /** Search, once the pattern has been tried on the file: `found` holds the text and copyright of a
        match. The object returned is the one in the table, and objects already in the table stay there. */
    method Search(found: Option<(string, string)>, file: string) returns (m: Match?)
      requires Valid()
      modifies this, matches.Values
      ensures Valid()
      ensures found.None? ==> m == null && matches == old(matches) && View() == old(View())
      ensures found.Some? ==>
                var key := Hash(found.value.0);
                && key in matches && m == matches[key]
                && View() == Apply(old(View()), Found(key, found.value.0, found.value.1, file))
      ensures forall k :: k in old(matches) ==> k in matches && matches[k] == old(matches[k])
      ensures forall k :: k in matches && k !in old(matches) ==> fresh(matches[k])
    {
      if found.None? { return null; }
      m := Record(Hash(found.value.0), found.value.0, found.value.1, file);
    }

    /** The part of Search that runs under the license's lock. */
    method Record(key: string, text: string, copyright: string, file: string) returns (m: Match)
      requires Valid()
      modifies this, matches.Values
      ensures Valid() && key in matches && m == matches[key]
      ensures View() == Apply(old(View()), Found(key, text, copyright, file))
      ensures forall k :: k in old(matches) ==> k in matches && matches[k] == old(matches[k])
      ensures forall k :: k in matches && k !in old(matches) ==> fresh(matches[k])
    {
      var found := new Match(text, copyright, file);
      if key !in matches {
        matches := matches[key := found];
        m := found;
      } else {
        m := matches[key];
        m.Merge(found);
      }
    }

    /** What MatchSingleLicenseFile does with one license: search, and mark the match it gets. Whoever
        else got the same match before holds the same object, so the mark reaches the table. */
    method SearchAndMark(found: Option<(string, string)>, file: string) returns (m: Match?)
      requires Valid()
      modifies this, matches.Values
      ensures Valid()
      ensures found.None? ==> m == null && View() == old(View())
      ensures found.Some? ==>
                var key := Hash(found.value.0);
                && key in matches && m == matches[key] && m.used
                && View() == Apply(Apply(old(View()), Found(key, found.value.0, found.value.1, file)), Mark(key))
    {
      m := Search(found, file);
      if m != null {
        m.used := true;
      }
    }
  }
}
