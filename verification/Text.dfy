/** String operations the modelled programs take from their standard libraries. */
module Text {

  predicate StartsWith(s: string, prefix: string) { |prefix| <= |s| && s[..|prefix|] == prefix }

  predicate EndsWith(s: string, suffix: string) { |suffix| <= |s| && s[|s| - |suffix|..] == suffix }

  /** Index of the first `c` in `s`, or |s|. */
  function Find(s: string, c: char): (i: nat)
    ensures i <= |s|
    ensures forall j :: 0 <= j < i ==> s[j] != c
    ensures i < |s| ==> s[i] == c
  {
    if s == "" || s[0] == c then 0 else 1 + Find(s[1..], c)
  }

  /** Split on every `c`: n separators give n + 1 pieces. */
  function Split(s: string, c: char): (r: seq<string>)
    ensures r != []
    ensures forall p :: p in r ==> c !in p
    decreases |s|
  {
    var i := Find(s, c);
    if i == |s| then [s] else [s[..i]] + Split(s[i + 1..], c)
  }

  function Join(parts: seq<string>, c: char): string
    requires parts != []
    decreases |parts|
  {
    if |parts| == 1 then parts[0] else parts[0] + [c] + Join(parts[1..], c)
  }

  lemma FindSkips(a: string, c: char, b: string)
    requires c !in a
    ensures Find(a + [c] + b, c) == |a|
  {
    var s := a + [c] + b;
    assert s[|a|] == c;
    assert forall j :: 0 <= j < |a| ==> s[j] == a[j];
  }

  lemma SplitCons(a: string, c: char, b: string)
    requires c !in a
    ensures Split(a + [c] + b, c) == [a] + Split(b, c)
  {
    FindSkips(a, c, b);
    var s := a + [c] + b;
    assert s[..|a|] == a && s[|a| + 1..] == b;
  }

  lemma JoinCons(a: string, parts: seq<string>, c: char)
    requires parts != []
    ensures Join([a] + parts, c) == a + [c] + Join(parts, c)
  {
    assert ([a] + parts)[1..] == parts;
  }

  lemma SplitOne(s: string, c: char)
    requires c !in s
    ensures Split(s, c) == [s]
  {
    assert Find(s, c) == |s|;
  }

  lemma CutAt(s: string, i: nat)
    requires i < |s|
    ensures s == s[..i] + [s[i]] + s[i + 1..]
  {
  }

  lemma SplitStep(s: string, c: char) returns (first: string, rest: string)
    requires Find(s, c) < |s|
    ensures s == first + [c] + rest && Split(s, c) == [first] + Split(rest, c)
  {
    var i := Find(s, c);
    CutAt(s, i);
    first, rest := s[..i], s[i + 1..];
  }

  lemma {:induction false} JoinSplit(s: string, c: char)
    ensures Join(Split(s, c), c) == s
    decreases |s|
  {
    if Find(s, c) < |s| {
      var first, rest := SplitStep(s, c);
      JoinSplit(rest, c);
      JoinCons(first, Split(rest, c), c);
    }
  }

  lemma SplitJoinCons(a: string, rest: seq<string>, c: char)
    requires c !in a && rest != [] && Split(Join(rest, c), c) == rest
    ensures Split(Join([a] + rest, c), c) == [a] + rest
  {
    JoinCons(a, rest, c);
    SplitCons(a, c, Join(rest, c));
  }

  lemma {:induction false} SplitJoin(parts: seq<string>, c: char)
    requires parts != [] && forall p :: p in parts ==> c !in p
    ensures Split(Join(parts, c), c) == parts
    decreases |parts|
  {
    var first := parts[0];
    assert first in parts;
    if |parts| == 1 {
      SplitOne(first, c);
      assert parts == [first];
    } else {
      var rest := parts[1..];
      SplitJoin(rest, c);
      SplitJoinCons(first, rest, c);
      assert parts == [first] + rest;
    }
  }

  lemma {:induction false} JoinSnoc(parts: seq<string>, last: string, c: char)
    requires parts != []
    ensures Join(parts + [last], c) == Join(parts, c) + [c] + last
    decreases |parts|
  {
    if |parts| == 1 {
      assert (parts + [last])[1..] == [last];
    } else {
      assert (parts + [last])[1..] == parts[1..] + [last];
      JoinSnoc(parts[1..], last, c);
    }
  }

  lemma {:induction false} JoinExtend(parts: seq<string>, x: string, c: char)
    requires parts != []
    ensures Join(parts[|parts| - 1 := parts[|parts| - 1] + x], c) == Join(parts, c) + x
    decreases |parts|
  {
    if |parts| > 1 {
      var more := parts[|parts| - 1 := parts[|parts| - 1] + x];
      assert more[0] == parts[0] && more[1..] == parts[1..][|parts| - 2 := parts[|parts| - 1] + x];
      JoinExtend(parts[1..], x, c);
    }
  }

  /** Text without a separator goes to the last piece. */
  lemma SplitExtend(s: string, x: string, c: char)
    requires c !in x
    ensures var parts := Split(s, c); Split(s + x, c) == parts[|parts| - 1 := parts[|parts| - 1] + x]
  {
    var parts := Split(s, c);
    JoinSplit(s, c);
    JoinExtend(parts, x, c);
    var more := parts[|parts| - 1 := parts[|parts| - 1] + x];
    assert parts[|parts| - 1] in parts;
    SplitJoin(more, c);
  }

  /** A separator starts a new piece. */
  lemma SplitBreak(s: string, c: char)
    ensures Split(s + [c], c) == Split(s, c) + [""]
  {
    var parts := Split(s, c);
    JoinSplit(s, c);
    JoinSnoc(parts, "", c);
    assert Join(parts, c) + [c] + "" == s + [c];
    SplitJoin(parts + [""], c);
  }

  lemma SplitInjective(a: string, b: string, c: char)
    ensures Split(a, c) == Split(b, c) <==> a == b
  {
    JoinSplit(a, c);
    JoinSplit(b, c);
  }

  /** Byte order of strings, as sort.Strings uses it. */
  predicate Le(a: string, b: string) {
    if a == "" then true
    else if b == "" then false
    else if a[0] == b[0] then Le(a[1..], b[1..]) else a[0] < b[0]
  }

  lemma {:induction false} LeTotal(a: string, b: string)
    ensures Le(a, b) || Le(b, a)
  {
    if a != "" && b != "" && a[0] == b[0] { LeTotal(a[1..], b[1..]); }
  }

  lemma {:induction false} LeTransitive(a: string, b: string, c: string)
    requires Le(a, b) && Le(b, c)
    ensures Le(a, c)
  {
    if a != "" && a[0] == b[0] == c[0] { LeTransitive(a[1..], b[1..], c[1..]); }
  }

  lemma {:induction false} LeAntisymmetric(a: string, b: string)
    requires Le(a, b) && Le(b, a)
    ensures a == b
  {
    if a != "" {
      LeAntisymmetric(a[1..], b[1..]);
      assert a == [a[0]] + a[1..] && b == [b[0]] + b[1..];
    }
  }

  /** A string comes before another if it is a prefix of it, or has the smaller character where they first differ. */
  lemma {:induction false} LeIff(a: string, b: string)
    ensures Le(a, b) <==> a <= b || exists i: nat :: Differ(a, b, i) && a[i] < b[i]
  {
    if a != "" && b != "" {
      assert a == [a[0]] + a[1..] && b == [b[0]] + b[1..] && a[..0] == b[..0];
      if a[0] == b[0] {
        LeIff(a[1..], b[1..]);
        if i: nat :| Differ(a[1..], b[1..], i) && a[1..][i] < b[1..][i] {
          assert a[..i + 1] == [a[0]] + a[1..][..i] && b[..i + 1] == [b[0]] + b[1..][..i];
          assert Differ(a, b, i + 1);
        }
        if i: nat :| Differ(a, b, i) && a[i] < b[i] {
          assert a[..i][1..] == a[1..][..i - 1] && b[..i][1..] == b[1..][..i - 1];
          assert Differ(a[1..], b[1..], i - 1);
        }
      } else {
        assert Differ(a, b, 0);
        forall i: nat | 0 < i < |a| && i < |b|
          ensures a[..i] != b[..i]
        {
          assert a[..i][0] == a[0] && b[..i][0] == b[0];
        }
      }
    }
  }

  ghost predicate Differ(a: string, b: string, i: nat) { i < |a| && i < |b| && a[..i] == b[..i] && a[i] != b[i] }
}
