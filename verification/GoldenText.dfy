/** The text side of tools/golden-util: file extensions, goldens.txt, sorted listings. */
module GoldenText {
  import opened Basics
  import opened Text

  /** filepath.Ext of the first `i` characters: the suffix from the last dot of the last element. */
  function ExtAt(s: string, i: nat): string
    requires i <= |s|
  {
    if i == 0 || s[i - 1] == '/' then ""
    else if s[i - 1] == '.' then s[i - 1..]
    else ExtAt(s, i - 1)
  }

  function Ext(s: string): string { ExtAt(s, |s|) }

  const GOLDEN := ".golden"
  const GOLDENS_TXT := "goldens.txt"

  lemma {:induction false} ExtAtIsSuffix(s: string, i: nat)
    requires i <= |s|
    ensures EndsWith(s, ExtAt(s, i))
  {
    if i > 0 && s[i - 1] != '/' && s[i - 1] != '.' { ExtAtIsSuffix(s, i - 1); }
  }

  lemma {:induction false} ExtAtOfJoin(dir: string, name: string, i: nat)
    requires i <= |name|
    ensures ExtAt(dir + "/" + name, |dir| + 1 + i) == ExtAt(name, i)
  {
    var s := dir + "/" + name;
    if i == 0 {
      assert s[|dir|] == '/';
    } else {
      assert s[|dir| + i] == name[i - 1];
      assert s[|dir| + i..] == name[i - 1..];
      if name[i - 1] != '/' && name[i - 1] != '.' { ExtAtOfJoin(dir, name, i - 1); }
    }
  }

  /** The extension runs from the last dot to the end, if no slash comes after that dot; else there is none. */
  lemma ExtIs(front: string, tail: string)
    requires '.' !in tail && '/' !in tail
    ensures Ext(tail) == "" && Ext(front + "/" + tail) == "" && Ext(front + "." + tail) == "." + tail
  {
    ExtAtStart(tail, 0);
    ExtAtStart(front + "/" + tail, |front| + 1);
    ExtAtStart(front + "." + tail, |front| + 1);
    assert (front + "." + tail)[|front|..] == "." + tail;
  }

  /** Reading back over characters that are neither dots nor slashes. */
  lemma {:induction false} ExtAtStart(s: string, i: nat)
    requires i <= |s| && '.' !in s[i..] && '/' !in s[i..]
    ensures Ext(s) == ExtAt(s, i)
    decreases |s| - i
  {
    if i < |s| {
      assert s[i] == s[i..][0] && s[i + 1..] == s[i..][1..];
      ExtAtStart(s, i + 1);
    }
  }

  /** filepath.Join for a clean directory. */
  function JoinPath(dir: string, name: string): string { dir + "/" + name }

  lemma ExtOfJoin(dir: string, name: string)
    ensures Ext(JoinPath(dir, name)) == Ext(name)
  {
    ExtAtOfJoin(dir, name, |name|);
  }

  lemma JoinInjective(dir: string, a: string, b: string)
    ensures JoinPath(dir, a) == JoinPath(dir, b) <==> a == b
  {
    assert JoinPath(dir, a)[|dir| + 1..] == a;
    assert JoinPath(dir, b)[|dir| + 1..] == b;
  }

  /** goldens.txt is not itself a golden. */
  lemma GoldensTxtExt()
    ensures Ext(GOLDENS_TXT) == ".txt"
  {
    var s := GOLDENS_TXT;
    assert ExtAt(s, 8) == ".txt";
    assert ExtAt(s, 9) == ExtAt(s, 8);
    assert ExtAt(s, 10) == ExtAt(s, 9);
    assert ExtAt(s, 11) == ExtAt(s, 10);
  }

  // ------------------------------------------------------------ goldens.txt

  /** bufio.ScanLines drops one trailing carriage return. */
  function DropCR(s: string): string {
    if s != "" && s[|s| - 1] == '\r' then s[..|s| - 1] else s
  }

  function ScanLines(text: string): seq<string>
    decreases |text|
  {
    if text == "" then []
    else
      var i := Find(text, '\n');
      if i == |text| then [DropCR(text)] else [DropCR(text[..i])] + ScanLines(text[i + 1..])
  }

  /** A golden's name as validate and readGoldensTxt accept it. */
  predicate GoldenName(n: string) { '/' !in n && Ext(n) == GOLDEN }

  /** What goldens.txt lists: None when a nonempty line is not a golden's name. */
  function Listing(text: string): Option<set<string>> {
    var lines := ScanLines(text);
    if forall l :: l in lines && l != "" ==> GoldenName(l) then Some(set l | l in lines && l != "") else None
  }

  method ReadGoldensTxt(text: string) returns (r: Option<set<string>>)
    ensures r == Listing(text)
  {
    var lines := ScanLines(text);
    var goldens := {};
    for i := 0 to |lines|
      invariant forall l :: l in lines[..i] && l != "" ==> GoldenName(l)
      invariant goldens == set l | l in lines[..i] && l != ""
    {
      var path := lines[i];
      assert lines[..i + 1] == lines[..i] + [path];
      if path != "" {
        if '/' in path || Ext(path) != GOLDEN {
          assert path in lines;
          return None;
        }
        goldens := goldens + {path};
      }
    }
    assert lines[..|lines|] == lines;
    return Some(goldens);
  }

  /** One line per name. */
  function Lines(names: seq<string>): string {
    if names == [] then "" else names[0] + "\n" + Lines(names[1..])
  }

  lemma ScanOfLines(names: seq<string>)
    requires forall n :: n in names ==> GoldenName(n) && '\n' !in n
    ensures ScanLines(Lines(names)) == names
  {
    ScanAfterLines(names, "");
    assert Lines(names) + "" == Lines(names);
  }

  /** Writing golden names and reading them back gives the same set, exactly when no name
      holds a newline. */
  lemma ListingOfLines(names: seq<string>)
    requires forall n :: n in names ==> GoldenName(n)
    ensures Listing(Lines(names)) == Some(set n | n in names) <==> forall n :: n in names ==> '\n' !in n
  {
    if forall n :: n in names ==> '\n' !in n {
      ScanOfLines(names);
      forall n | n in names
        ensures n != ""
      {
        assert Ext(n) == GOLDEN;
      }
      assert (set n | n in names && n != "") == (set n | n in names);
    } else if Listing(Lines(names)) == Some(set n | n in names) {
      ListingNames(Lines(names));
    }
  }

  lemma LinesCons(n: string, rest: seq<string>)
    ensures Lines([n] + rest) == n + "\n" + Lines(rest)
  {
    assert ([n] + rest)[1..] == rest;
  }

  lemma {:induction false} ExtAtOfConcat(a: string, b: string, i: nat)
    requires i <= |b| && ExtAt(b, i) != ""
    ensures ExtAt(a + b, |a| + i) == ExtAt(b, i)
  {
    assert (a + b)[|a| + i - 1] == b[i - 1] && (a + b)[|a| + i - 1..] == b[i - 1..];
    if b[i - 1] != '.' { ExtAtOfConcat(a, b, i - 1); }
  }

  /** A golden whose name holds a newline is accepted, and then listed as two others. */
  lemma NewlineListsOthers(a: string, b: string)
    requires GoldenName(a) && GoldenName(b) && '\n' !in a && '\n' !in b
    ensures GoldenName(a + "\n" + b) && Listing(Lines([a + "\n" + b])) == Some({a, b})
  {
    ExtAtOfConcat(a + "\n", b, |b|);
    LinesCons(a + "\n" + b, []);
    LinesCons(b, []);
    LinesCons(a, [b]);
    var one, two := [a + "\n" + b], [a, b];
    assert one == one + [] && [b] == [b] + [] && two == [a] + [b];
    assert Lines(one) == Lines(two);
    ListingOfLines(two);
    assert (set n | n in two) == {a, b};
  }

  /** Names read from goldens.txt are golden names without newlines. */
  lemma ListingNames(text: string)
    requires Listing(text).Some?
    ensures forall n :: n in Listing(text).value ==> GoldenName(n) && '\n' !in n
  {
    forall n | n in ScanLines(text) { ScanHasNoNewline(text, n); }
  }

  lemma {:induction false} ScanHasNoNewline(text: string, l: string)
    requires l in ScanLines(text)
    ensures '\n' !in l
    decreases |text|
  {
    var i := Find(text, '\n');
    DropCRKeeps(text[..i]);
    if i == |text| {
      assert text[..i] == text;
    } else if l != DropCR(text[..i]) {
      ScanHasNoNewline(text[i + 1..], l);
    }
  }

  lemma DropCRKeeps(s: string)
    requires '\n' !in s
    ensures '\n' !in DropCR(s)
  {
  }

  // ------------------------------------------------- writes that do not go through

  /** What is left when `text` is written from the start of a file that holds `before` and is not truncated. */
  function Over(text: string, before: string): string {
    text + if |before| > |text| then before[|text|..] else ""
  }

  /** How much of a name and of the newline after it is written. */
  datatype Cut = Cut(chars: nat, newline: bool)

  function Piece(n: string, c: Cut): string { n[..Min(c.chars, |n|)] + if c.newline then "\n" else "" }

  /** What is left of a listing when each write may fall short. */
  function Written(names: seq<string>, cuts: seq<Cut>): string
    requires |cuts| == |names|
    decreases |names|
  {
    if names == [] then ""
    else Written(names[..|names| - 1], cuts[..|names| - 1]) + Piece(names[|names| - 1], cuts[|names| - 1])
  }

  lemma WrittenSnoc(names: seq<string>, cuts: seq<Cut>, n: string, c: Cut)
    requires |cuts| == |names|
    ensures Written(names + [n], cuts + [c]) == Written(names, cuts) + Piece(n, c)
  {
    assert (names + [n])[..|names|] == names && (cuts + [c])[..|cuts|] == cuts;
  }

  ghost predicate InFull(names: seq<string>, cuts: seq<Cut>) {
    |cuts| == |names| && forall i :: 0 <= i < |names| ==> cuts[i].chars >= |names[i]| && cuts[i].newline
  }

  lemma {:induction false} LinesSnoc(names: seq<string>, n: string)
    ensures Lines(names + [n]) == Lines(names) + n + "\n"
    decreases |names|
  {
    if names == [] {
      assert names + [n] == [n] && [n][1..] == [];
      assert Lines([n]) == n + "\n" + Lines([]);
    } else {
      assert (names + [n])[0] == names[0] && (names + [n])[1..] == names[1..] + [n];
      LinesSnoc(names[1..], n);
    }
  }

  lemma PieceInFull(n: string, c: Cut)
    requires c.chars >= |n| && c.newline
    ensures Piece(n, c) == n + "\n"
  {
    assert n[..|n|] == n;
  }

  lemma {:induction false} WrittenInFull(names: seq<string>, cuts: seq<Cut>)
    requires InFull(names, cuts)
    ensures Written(names, cuts) == Lines(names)
    decreases |names|
  {
    if names != [] {
      var k := |names| - 1;
      var front, n, most, c := names[..k], names[k], cuts[..k], cuts[k];
      assert names == front + [n] && cuts == most + [c];
      WrittenInFull(front, most);
      WrittenSnoc(front, most, n, c);
      PieceInFull(n, c);
      LinesSnoc(front, n);
      ConcatAssoc(Lines(front), n, "\n");
    }
  }

  // The disk fills up: everything is written up to some point, and nothing after it.

  lemma {:induction false} LinesConcat(a: seq<string>, b: seq<string>)
    ensures Lines(a + b) == Lines(a) + Lines(b)
  {
    if a == [] {
      assert a + b == b;
    } else {
      assert (a + b)[0] == a[0] && (a + b)[1..] == a[1..] + b;
      LinesConcat(a[1..], b);
    }
  }

  /** A listing cut off anywhere is the lines of the first names, and the beginning of the next name. */
  lemma {:induction false} CutIsLines(names: seq<string>, k: nat) returns (i: nat, j: nat)
    requires k <= |Lines(names)|
    ensures i <= |names| && (i == |names| ==> j == 0) && (i < |names| ==> j <= |names[i]|)
    ensures Lines(names)[..k] == Lines(names[..i]) + if i == |names| then "" else names[i][..j]
    decreases |names|
  {
    if names == [] {
      i, j := 0, 0;
    } else {
      var n, rest := names[0], Lines(names[1..]);
      var text := n + "\n" + rest;
      if k <= |n| {
        i, j := 0, k;
        assert text[..k] == n[..k] && names[..0] == [];
      } else {
        i, j := CutIsLines(names[1..], k - |n| - 1);
        assert text[..k] == n + "\n" + rest[..k - |n| - 1];
        i := i + 1;
        assert names[..i][0] == n && names[..i][1..] == names[1..][..i - 1];
      }
    }
  }

  lemma LinesCutAt(names: seq<string>, i: nat, j: nat) returns (k: nat)
    requires i < |names| && j <= |names[i]|
    ensures k <= |Lines(names)| && Lines(names)[..k] == Lines(names[..i]) + names[i][..j]
  {
    var n, rest := names[i], names[i + 1..];
    assert names == names[..i] + ([n] + rest);
    LinesConcat(names[..i], [n] + rest);
    LinesCons(n, rest);
    k := |Lines(names[..i])| + j;
    assert (n + "\n" + Lines(rest))[..j] == n[..j];
  }

  lemma ConcatAssoc<T>(a: seq<T>, b: seq<T>, c: seq<T>)
    ensures a + b + c == a + (b + c)
  {
  }

  lemma LinesConsTail(n: string, rest: seq<string>, tail: string)
    ensures Lines([n] + rest) + tail == n + "\n" + (Lines(rest) + tail)
  {
    LinesCons(n, rest);
    ConcatAssoc(n + "\n", Lines(rest), tail);
  }

  /** Lines come out one by one, whatever follows. */
  lemma {:induction false} ScanAfterLines(names: seq<string>, tail: string)
    requires forall n :: n in names ==> GoldenName(n) && '\n' !in n
    ensures ScanLines(Lines(names) + tail) == names + ScanLines(tail)
    decreases |names|
  {
    if names == [] {
      assert Lines(names) + tail == tail && names + ScanLines(tail) == ScanLines(tail);
    } else {
      var n, rest := names[0], names[1..];
      assert n in names && names == [n] + rest;
      ScanAfterLines(rest, tail);
      LinesConsTail(n, rest, tail);
      ScanOne(n, Lines(rest) + tail);
      ConcatAssoc([n], rest, ScanLines(tail));
    }
  }

  lemma ScanOne(n: string, rest: string)
    requires GoldenName(n) && '\n' !in n
    ensures ScanLines(n + "\n" + rest) == [n] + ScanLines(rest)
  {
    FindSkips(n, '\n', rest);
    var text := n + ['\n'] + rest;
    assert text[..|n|] == n && text[|n| + 1..] == rest;
    GoldenEnd(n);
  }

  /** A line ends before its newline, and before one carriage return that comes with it. */
  lemma LineEndings(line: string, rest: string)
    requires '\n' !in line
    ensures ScanLines(line + "\r\n" + rest) == [line] + ScanLines(rest)
    ensures line == "" || line[|line| - 1] != '\r' ==> ScanLines(line + "\n" + rest) == [line] + ScanLines(rest)
  {
    FindSkips(line + "\r", '\n', rest);
    var text := line + "\r" + ['\n'] + rest;
    assert text == line + "\r\n" + rest;
    assert text[..|line| + 1] == line + "\r" && text[|line| + 2..] == rest && (line + "\r")[..|line|] == line;
    FindSkips(line, '\n', rest);
    var plain := line + ['\n'] + rest;
    assert plain[..|line|] == line && plain[|line| + 1..] == rest;
  }

  /** A golden's name has no carriage return to lose. */
  lemma GoldenEnd(n: string)
    requires GoldenName(n)
    ensures n != "" && DropCR(n) == n
  {
    ExtAtIsSuffix(n, |n|);
    assert n[|n| - 1] == GOLDEN[6];
  }

  lemma ScanUnfinished(p: string)
    requires '\n' !in p
    ensures ScanLines(p) == if p == "" then [] else [DropCR(p)]
  {
  }

  /** What a listing that was cut off lists: the names written in full, and the last one as far as it got. */
  lemma ListingOfCut(names: seq<string>, i: nat, j: nat)
    requires (forall n :: n in names ==> GoldenName(n) && '\n' !in n) && i < |names| && j <= |names[i]|
    ensures var p := names[i][..j];
            ScanLines(Lines(names[..i]) + p) == names[..i] + if p == "" then [] else [DropCR(p)]
  {
    assert names[i] in names;
    assert forall n :: n in names[..i] ==> n in names;
    ScanAfterLines(names[..i], names[i][..j]);
    ScanUnfinished(names[i][..j]);
  }

  /** A name cut off after a first ".golden" lists another golden. */
  lemma CutListsAnother(a: string)
    requires GoldenName(a) && '\n' !in a
    ensures var n := a + GOLDEN;
            GoldenName(n) && '\n' !in n && Listing(Lines([n])[..|a|]) == Some({a})
  {
    var n := a + GOLDEN;
    assert ExtAt(GOLDEN, 7) == GOLDEN by { GoldenExt(); }
    ExtAtOfConcat(a, GOLDEN, 7);
    LinesCons(n, []);
    assert [n] == [n] + [];
    assert (n + "\n" + Lines([]))[..|a|] == a;
    GoldenEnd(a);
    ScanUnfinished(a);
    assert Lines([n])[..|a|] == a;
    assert (set l | l in [a] && l != "") == {a};
  }

  lemma GoldenExt()
    ensures ExtAt(GOLDEN, 7) == GOLDEN
  {
    var s := GOLDEN;
    assert ExtAt(s, 1) == GOLDEN;
    assert ExtAt(s, 2) == ExtAt(s, 1);
    assert ExtAt(s, 3) == ExtAt(s, 2);
    assert ExtAt(s, 4) == ExtAt(s, 3);
    assert ExtAt(s, 5) == ExtAt(s, 4);
    assert ExtAt(s, 6) == ExtAt(s, 5);
    assert ExtAt(s, 7) == ExtAt(s, 6);
  }

  function StopAt(names: seq<string>, i: nat, j: nat): (cuts: seq<Cut>)
    ensures |cuts| == |names|
  {
    seq(|names|, x requires 0 <= x < |names| => if x < i then Cut(|names[x]|, true) else if x == i then Cut(j, false) else Cut(0, false))
  }

  /** Such a listing is one in which each write may fall short. */
  lemma {:induction false} StopIsCut(names: seq<string>, i: nat, j: nat)
    requires i < |names| && j <= |names[i]|
    ensures Written(names, StopAt(names, i, j)) == Lines(names[..i]) + names[i][..j]
    decreases |names|
  {
    var n := |names| - 1;
    var cuts := StopAt(names, i, j);
    if i == n {
      assert InFull(names[..n], cuts[..n]);
      WrittenInFull(names[..n], cuts[..n]);
    } else {
      assert cuts[..n] == StopAt(names[..n], i, j) && names[..n][..i] == names[..i];
      StopIsCut(names[..n], i, j);
    }
  }

  // Any write may fall short: lines run into each other.

  lemma ScanStep(text: string) returns (first: string, rest: string)
    requires Find(text, '\n') < |text|
    ensures |rest| < |text|
    ensures Split(text, '\n') == [first] + Split(rest, '\n') && ScanLines(text) == [DropCR(first)] + ScanLines(rest)
  {
    var i := Find(text, '\n');
    first, rest := text[..i], text[i + 1..];
  }

  lemma {:induction false} ScanInSplit(text: string, l: string) returns (g: string)
    requires l in ScanLines(text)
    ensures g in Split(text, '\n') && l == DropCR(g)
    decreases |text|
  {
    if Find(text, '\n') == |text| {
      g := text;
    } else {
      var first, rest := ScanStep(text);
      if l == DropCR(first) { g := first; } else { g := ScanInSplit(rest, l); }
    }
  }

  ghost predicate NoBreaks(cuts: seq<Cut>) { forall i :: 0 <= i < |cuts| ==> !cuts[i].newline }

  function Nothing(n: nat): (cuts: seq<Cut>)
    ensures |cuts| == n && NoBreaks(cuts) && forall i :: 0 <= i < n ==> cuts[i].chars == 0
  {
    seq(n, _ => Cut(0, false))
  }

  lemma {:induction false} NothingWritten(names: seq<string>)
    ensures Written(names, Nothing(|names|)) == ""
    decreases |names|
  {
    if names != [] {
      var n := |names| - 1;
      NothingWritten(names[..n]);
      assert Nothing(|names|)[..n] == Nothing(n);
    }
  }

  lemma {:induction false} WrittenWithoutBreaks(names: seq<string>, cuts: seq<Cut>)
    requires |cuts| == |names| && NoBreaks(cuts) && forall n :: n in names ==> '\n' !in n
    ensures '\n' !in Written(names, cuts)
    decreases |names|
  {
    if names != [] {
      var n := |names| - 1;
      assert names[n] in names;
      WrittenWithoutBreaks(names[..n], cuts[..n]);
    }
  }

  lemma RunOn(front: seq<string>, before: seq<Cut>, n: string, chars: nat) returns (flat: seq<Cut>)
    requires |before| == |front| && NoBreaks(before)
    ensures |flat| == |front| + 1 && NoBreaks(flat)
    ensures Written(front + [n], flat) == Written(front, before) + n[..Min(chars, |n|)]
  {
    flat := before + [Cut(chars, false)];
    WrittenSnoc(front, before, n, Cut(chars, false));
    assert Piece(n, Cut(chars, false)) == n[..Min(chars, |n|)];
  }

  lemma LastPiece(front: seq<string>, cuts: seq<Cut>, n: string, c: Cut, g: string)
    requires |cuts| == |front| && '\n' !in n && g in Split(Written(front + [n], cuts + [c]), '\n')
    ensures var parts := Split(Written(front, cuts), '\n');
            g in parts || g == parts[|parts| - 1] + n[..Min(c.chars, |n|)] || g == ""
  {
    WrittenSnoc(front, cuts, n, c);
    WrittenSplit(Written(front, cuts), n[..Min(c.chars, |n|)], c.newline);
  }

  /** Every line of a listing with gaps is made of beginnings of names run together. */
  lemma {:induction false} LineIsRunTogether(names: seq<string>, cuts: seq<Cut>, g: string) returns (flat: seq<Cut>)
    requires |cuts| == |names| && (forall n :: n in names ==> '\n' !in n) && g in Split(Written(names, cuts), '\n')
    ensures |flat| == |names| && NoBreaks(flat) && Written(names, flat) == g
    decreases |names|
  {
    if g == "" {
      flat := Nothing(|names|);
      NothingWritten(names);
    } else {
      assert names != [];
      var front, n, most, c := names[..|names| - 1], names[|names| - 1], cuts[..|names| - 1], cuts[|names| - 1];
      assert n in names && names == front + [n] && cuts == most + [c];
      LastPiece(front, most, n, c, g);
      var parts := Split(Written(front, most), '\n');
      if g in parts {
        var before := LineIsRunTogether(front, most, g);
        flat := RunOn(front, before, n, 0);
        assert g + n[..0] == g;
      } else {
        var before := LineIsRunTogether(front, most, parts[|parts| - 1]);
        flat := RunOn(front, before, n, c.chars);
      }
    }
  }

  lemma WrittenSplit(text: string, p: string, newline: bool)
    requires '\n' !in p
    ensures var parts := Split(text, '\n');
            forall g :: g in Split(text + (p + if newline then "\n" else ""), '\n') ==>
              g in parts || g == parts[|parts| - 1] + p || g == ""
  {
    SplitExtend(text, p, '\n');
    if newline {
      SplitBreak(text + p, '\n');
      assert text + (p + "\n") == text + p + ['\n'];
    } else {
      assert text + (p + "") == text + p;
    }
  }

  // ---------------------------------------------------------- sorted listing

  ghost predicate Sorted(r: seq<string>) { forall i, j :: 0 <= i < j < |r| ==> Le(r[i], r[j]) }

  function Insert(r: seq<string>, x: string): (q: seq<string>)
    ensures multiset(q) == multiset(r) + multiset{x}
  {
    if r == [] then [x]
    else if Le(x, r[0]) then
      assert [x] + r == [x] + r[..];
      [x] + r
    else
      assert r == [r[0]] + r[1..];
      [r[0]] + Insert(r[1..], x)
  }

  lemma {:induction false} InsertSorted(r: seq<string>, x: string)
    requires Sorted(r)
    ensures Sorted(Insert(r, x))
    decreases |r|
  {
    if r == [] {
    } else if Le(x, r[0]) {
      forall j | 0 <= j < |r|
        ensures Le(x, r[j])
      {
        if j > 0 { LeTransitive(x, r[0], r[j]); }
      }
    } else {
      LeTotal(x, r[0]);
      InsertSorted(r[1..], x);
      var q := Insert(r[1..], x);
      forall j | 0 <= j < |q|
        ensures Le(r[0], q[j])
      {
        assert q[j] in multiset(q);
        assert q[j] in r[1..] || q[j] == x;
      }
    }
  }

  /** setToSortedSlice. */
  method SetToSortedSlice(s: set<string>) returns (r: seq<string>)
    ensures Sorted(r) && multiset(r) == multiset(s)
    ensures (set n | n in r) == s
  {
    r := [];
    var rest := s;
    while rest != {}
      invariant Sorted(r) && rest <= s && multiset(r) == multiset(s - rest)
      decreases rest
    {
      var x :| x in rest;
      InsertSorted(r, x);
      r := Insert(r, x);
      assert s - (rest - {x}) == (s - rest) + {x};
      rest := rest - {x};
    }
    assert s - rest == s;
    assert forall n :: n in r <==> n in multiset(r);
  }
}
