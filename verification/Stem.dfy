/** scripts/sync-from-stem.py: the cache of integration commits and of the fuchsia
    revisions each one brought in, and its inverse index. */
module Stem {
  import opened Basics

  /** A git commit hash. */
  type Sha = nat

  /** An integration commit: `logged` says that git log reports it for the stem manifest
      (it touches the manifest and is recent enough), `pin` is the fuchsia revision it fixes. */
  datatype Commit = Commit(id: Sha, logged: bool, pin: Sha)

  /** Both histories are linear; index 0 is the oldest commit. */
  datatype Repo = Repo(integration: seq<Commit>, fuchsia: seq<Sha>) {
    ghost predicate Valid() {
      && (forall i :: 0 <= i < |integration| ==> integration[i].pin in fuchsia)
      && Distinct(Ids(integration))
      && Distinct(fuchsia)
    }
  }

  /** Indexing under a name, so that distinctness is only instantiated where it is asked for. */
  function At(s: seq<Sha>, i: nat): Sha
    requires i < |s|
  {
    s[i]
  }

  ghost predicate Distinct(s: seq<Sha>) {
    forall i, j {:trigger At(s, i), At(s, j)} :: 0 <= i < j < |s| ==> At(s, i) != At(s, j)
  }

  lemma DistinctAt(s: seq<Sha>, i: nat, j: nat)
    requires Distinct(s) && i < |s| && j < |s|
    ensures s[i] == s[j] <==> i == j
  {
    assert At(s, i) == s[i] && At(s, j) == s[j];
  }

  /** Integration ids are unique. */
  lemma SameId(repo: Repo, i: nat, j: nat)
    requires repo.Valid() && i < |repo.integration| && j < |repo.integration|
    ensures repo.integration[i].id == repo.integration[j].id <==> i == j
  {
    var ids := Ids(repo.integration);
    assert ids[i] == repo.integration[i].id && ids[j] == repo.integration[j].id;
    DistinctAt(ids, i, j);
  }

  // ------------------------------------------------------------ git queries

  function IndexOf(s: seq<Sha>, x: Sha): (i: nat)
    requires x in s
    ensures i < |s| && s[i] == x
  {
    if s[0] == x then 0 else 1 + IndexOf(s[1..], x)
  }

  /** git log older..cur: what is reachable from `cur` and not from `older`, newest first. */
  function FuchsiaLog(repo: Repo, older: Sha, cur: Sha): seq<Sha>
    requires older in repo.fuchsia && cur in repo.fuchsia
  {
    Between(repo.fuchsia, IndexOf(repo.fuchsia, older), IndexOf(repo.fuchsia, cur))
  }

  function Between(history: seq<Sha>, lo: nat, hi: nat): seq<Sha>
    requires hi < |history|
  {
    if hi <= lo then [] else [history[hi]] + Between(history, lo, hi - 1)
  }

  /** git log lo..hi -- stem: the logged commits with index in (lo, hi], newest first. */
  function NewCommits(repo: Repo, lo: int, hi: int): seq<Commit>
    requires -1 <= lo && hi < |repo.integration|
    decreases hi - lo
  {
    if hi <= lo then []
    else (if repo.integration[hi].logged then [repo.integration[hi]] else []) + NewCommits(repo, lo, hi - 1)
  }

  /** The commit with a given id among the first `n`. */
  function FindCommit(repo: Repo, id: Sha, n: nat): (i: nat)
    requires n <= |repo.integration| && exists k :: 0 <= k < n && repo.integration[k].id == id
    ensures i < n && repo.integration[i].id == id
  {
    if repo.integration[n - 1].id == id then n - 1 else FindCommit(repo, id, n - 1)
  }

  // ---------------------------------------------------------------- the cache

  type Pair = (Sha, Sha)               // integration id, fuchsia pin
  type Ranges = seq<(Sha, seq<Sha>)>   // a dict, in insertion order

  datatype Data = Data(commits: seq<Sha>, head: Option<Sha>, pairs: seq<Pair>, ranges: Ranges)

  const EMPTY := Data([], None, [], [])

  /** Python's d[k] = v: a present key keeps its place. */
  function DictSet(d: Ranges, k: Sha, v: seq<Sha>): Ranges {
    if d == [] then [(k, v)]
    else if d[0].0 == k then [(k, v)] + d[1..]
    else [d[0]] + DictSet(d[1..], k, v)
  }

  function Ids(cs: seq<Commit>): seq<Sha> { seq(|cs|, i requires 0 <= i < |cs| => cs[i].id) }

  function PairsOf(cs: seq<Commit>): seq<Pair> { seq(|cs|, i requires 0 <= i < |cs| => (cs[i].id, cs[i].pin)) }

  ghost predicate PinsKnown(repo: Repo, pairs: seq<Pair>) {
    forall i :: 0 <= i < |pairs| ==> pairs[i].1 in repo.fuchsia
  }

  /** The range of each pair but the oldest: the log from the next older pin to its own. */
  function RangeSeq(repo: Repo, pairs: seq<Pair>): (r: Ranges)
    requires PinsKnown(repo, pairs)
    ensures |r| == if pairs == [] then 0 else |pairs| - 1
    ensures forall i {:trigger r[i]} :: 0 <= i < |r| ==> r[i] == (pairs[i].0, FuchsiaLog(repo, pairs[i + 1].1, pairs[i].1))
  {
    if pairs == [] then []
    else seq(|pairs| - 1, i requires 0 <= i < |pairs| - 1 => (pairs[i].0, FuchsiaLog(repo, pairs[i + 1].1, pairs[i].1)))
  }

  /** last_num: every new pair has a range, except the oldest pair of all. */
  function LastNum(pairs: seq<Pair>, added: nat): nat {
    if |pairs| == 0 then 0 else if added <= |pairs| - 1 then added else |pairs| - 1
  }

  function SetAll(d: Ranges, items: Ranges): Ranges
    decreases |items|
  {
    if items == [] then d else DictSet(SetAll(d, items[..|items| - 1]), items[|items| - 1].0, items[|items| - 1].1)
  }

  /** The cache belongs to this repository. */
  ghost predicate Known(repo: Repo, d: Data) {
    && PinsKnown(repo, d.pairs)
    && (d.head.Some? ==> exists k :: 0 <= k < |repo.integration| && repo.integration[k].id == d.head.value)
  }

  function HeadIndex(repo: Repo, d: Data): (i: int)
    requires d.head.Some? ==> exists k :: 0 <= k < |repo.integration| && repo.integration[k].id == d.head.value
    ensures -1 <= i < |repo.integration|
    ensures i >= 0 ==> d.head == Some(repo.integration[i].id)
    ensures i == -1 <==> d.head == None
  {
    if d.head == None then -1 else FindCommit(repo, d.head.value, |repo.integration|)
  }

  lemma {:induction false} NewCommitsKnown(repo: Repo, lo: int, hi: int)
    requires repo.Valid() && -1 <= lo && hi < |repo.integration|
    ensures forall c :: c in NewCommits(repo, lo, hi) ==> c in repo.integration && c.pin in repo.fuchsia
    decreases hi - lo
  {
    if hi > lo { NewCommitsKnown(repo, lo, hi - 1); }
  }

  lemma PairsKnown(repo: Repo, lo: int, hi: int)
    requires repo.Valid() && -1 <= lo && hi < |repo.integration|
    ensures PinsKnown(repo, PairsOf(NewCommits(repo, lo, hi)))
  {
    NewCommitsKnown(repo, lo, hi);
    var cs := NewCommits(repo, lo, hi);
    assert forall i :: 0 <= i < |cs| ==> cs[i] in cs;
  }

  lemma ConcatKnown(repo: Repo, a: seq<Pair>, b: seq<Pair>)
    requires PinsKnown(repo, a) && PinsKnown(repo, b)
    ensures PinsKnown(repo, a + b)
  {
  }

  /** A call of update_stem_history when the integration head is commit number `cur`. */
  function Update(repo: Repo, d: Data, cur: nat): (d': Data)
    requires repo.Valid() && cur < |repo.integration| && Known(repo, d)
    ensures Known(repo, d')
  {
    if d.head == Some(repo.integration[cur].id) then d
    else
      var added := NewCommits(repo, HeadIndex(repo, d), cur);
      PairsKnown(repo, HeadIndex(repo, d), cur);
      ConcatKnown(repo, PairsOf(added), d.pairs);
      var pairs := PairsOf(added) + d.pairs;
      Data(Ids(added) + d.commits, Some(repo.integration[cur].id), pairs,
           SetAll(d.ranges, RangeSeq(repo, pairs)[..LastNum(pairs, |added|)]))
  }

  /** Calls at a series of heads. */
  function Run(repo: Repo, d: Data, heads: seq<nat>): (d': Data)
    requires repo.Valid() && Known(repo, d) && forall i :: 0 <= i < |heads| ==> heads[i] < |repo.integration|
    ensures Known(repo, d')
    decreases |heads|
  {
    if heads == [] then d else Update(repo, Run(repo, d, heads[..|heads| - 1]), heads[|heads| - 1])
  }

  ghost predicate Growing(heads: seq<nat>) { forall i, j :: 0 <= i < j < |heads| ==> heads[i] <= heads[j] }

  /** All pairs and all ranges of the history up to head `h`, newest first. */
  function AllPairs(repo: Repo, h: int): (r: seq<Pair>)
    requires repo.Valid() && -1 <= h < |repo.integration|
    ensures PinsKnown(repo, r)
  {
    PairsKnown(repo, -1, h);
    PairsOf(NewCommits(repo, -1, h))
  }

  function AllRanges(repo: Repo, h: int): Ranges
    requires repo.Valid() && -1 <= h < |repo.integration|
  {
    RangeSeq(repo, AllPairs(repo, h))
  }

  /** What the cache should hold for head `h` (-1: before the first call), whatever the calls
      before: the whole history, with the ranges in some order. */
  ghost predicate UpTo(repo: Repo, d: Data, h: int)
    requires repo.Valid() && -1 <= h < |repo.integration|
  {
    && d.head == (if h == -1 then None else Some(repo.integration[h].id))
    && d.commits == Ids(NewCommits(repo, -1, h))
    && d.pairs == AllPairs(repo, h)
    && multiset(d.ranges) == multiset(AllRanges(repo, h))
  }

  // ------------------------------------------------- cache agrees with history

  lemma {:induction false} NewCommitsSplit(repo: Repo, lo: int, mid: int, hi: int)
    requires -1 <= lo <= mid <= hi < |repo.integration|
    ensures NewCommits(repo, lo, hi) == NewCommits(repo, mid, hi) + NewCommits(repo, lo, mid)
    decreases hi - mid
  {
    if hi > mid { NewCommitsSplit(repo, lo, mid, hi - 1); }
  }

  /** Logged commits are listed by decreasing index. */
  lemma {:induction false} NewCommitsAt(repo: Repo, lo: int, hi: int, i: nat) returns (k: nat)
    requires -1 <= lo && hi < |repo.integration| && i < |NewCommits(repo, lo, hi)|
    ensures lo < k <= hi && repo.integration[k].logged && NewCommits(repo, lo, hi)[i] == repo.integration[k]
    ensures NewCommits(repo, lo, k - 1) == NewCommits(repo, lo, hi)[i + 1..]
    decreases hi - lo
  {
    var head: seq<Commit> := if repo.integration[hi].logged then [repo.integration[hi]] else [];
    if i < |head| {
      k := hi;
    } else {
      k := NewCommitsAt(repo, lo, hi - 1, i - |head|);
    }
  }

  /** The commits listed are exactly the logged ones of the interval. */
  lemma {:induction false} NewCommitsHas(repo: Repo, lo: int, hi: int, k: nat)
    requires repo.Valid() && -1 <= lo && hi < |repo.integration| && k < |repo.integration|
    ensures repo.integration[k] in NewCommits(repo, lo, hi) <==> lo < k <= hi && repo.integration[k].logged
    decreases hi - lo
  {
    if hi > lo {
      NewCommitsHas(repo, lo, hi - 1, k);
      if repo.integration[k] == repo.integration[hi] { SameId(repo, k, hi); }
    }
  }

  lemma NewCommitsDistinct(repo: Repo, lo: int, hi: int, i: nat, j: nat)
    requires repo.Valid() && -1 <= lo && hi < |repo.integration| && i < j < |NewCommits(repo, lo, hi)|
    ensures NewCommits(repo, lo, hi)[i].id != NewCommits(repo, lo, hi)[j].id
  {
    var cs := NewCommits(repo, lo, hi);
    var k := NewCommitsAt(repo, lo, hi, i);
    assert NewCommits(repo, lo, k - 1)[j - i - 1] == cs[j];
    var k' := NewCommitsAt(repo, lo, k - 1, j - i - 1);
    SameId(repo, k, k');
  }

  lemma {:induction false} DictSetNewKey(d: Ranges, k: Sha, v: seq<Sha>)
    requires forall i :: 0 <= i < |d| ==> d[i].0 != k
    ensures DictSet(d, k, v) == d + [(k, v)]
  {
    if d != [] { DictSetNewKey(d[1..], k, v); }
  }

  lemma {:induction false} SetAllNewKeys(d: Ranges, items: Ranges)
    requires forall i, j :: 0 <= i < |d| && 0 <= j < |items| ==> d[i].0 != items[j].0
    requires forall i, j :: 0 <= i < j < |items| ==> items[i].0 != items[j].0
    ensures SetAll(d, items) == d + items
    decreases |items|
  {
    if items != [] {
      var front, last := items[..|items| - 1], items[|items| - 1];
      SetAllNewKeys(d, front);
      DictSetNewKey(d + front, last.0, last.1);
      assert items == front + [last];
    }
  }

  /** Ranges of newer pairs come first, and those of older pairs do not depend on newer ones. */
  lemma RangeSeqConcat(repo: Repo, newer: seq<Pair>, older: seq<Pair>)
    requires PinsKnown(repo, newer) && PinsKnown(repo, older)
    ensures PinsKnown(repo, newer + older)
    ensures RangeSeq(repo, newer + older) ==
            RangeSeq(repo, newer + older)[..LastNum(newer + older, |newer|)] + RangeSeq(repo, older)
  {
  }

  predicate HasKey(pairs: seq<Pair>, k: Sha) { exists j :: 0 <= j < |pairs| && pairs[j].0 == k }

  /** Every key of a cache is the id of one of its pairs. */
  lemma RangeKeys(repo: Repo, pairs: seq<Pair>, ranges: Ranges, i: nat)
    requires PinsKnown(repo, pairs) && multiset(ranges) == multiset(RangeSeq(repo, pairs)) && i < |ranges|
    ensures HasKey(pairs, ranges[i].0)
  {
    assert ranges[i] in multiset(ranges);
    assert ranges[i] in RangeSeq(repo, pairs);
  }

  lemma AllPairsDistinct(repo: Repo, h: int)
    requires repo.Valid() && -1 <= h < |repo.integration|
    ensures KeysDistinct(AllPairs(repo, h))
  {
    var all := AllPairs(repo, h);
    forall i, j | 0 <= i < j < |all|
      ensures all[i].0 != all[j].0
    {
      NewCommitsDistinct(repo, -1, h, i, j);
    }
  }

  lemma AllPairsSplit(repo: Repo, h: int, cur: nat)
    requires repo.Valid() && -1 <= h <= cur < |repo.integration|
    ensures AllPairs(repo, cur) == PairsOf(NewCommits(repo, h, cur)) + AllPairs(repo, h)
    ensures Ids(NewCommits(repo, -1, cur)) == Ids(NewCommits(repo, h, cur)) + Ids(NewCommits(repo, -1, h))
  {
    NewCommitsSplit(repo, -1, h, cur);
    var a, b := NewCommits(repo, h, cur), NewCommits(repo, -1, h);
    assert PairsOf(a + b) == PairsOf(a) + PairsOf(b);
    assert Ids(a + b) == Ids(a) + Ids(b);
  }

  ghost predicate KeysDistinct(pairs: seq<Pair>) {
    forall i, j {:trigger pairs[i].0, pairs[j].0} :: 0 <= i < j < |pairs| ==> pairs[i].0 != pairs[j].0
  }

  lemma KeysApart(repo: Repo, newer: seq<Pair>, older: seq<Pair>, ranges: Ranges, i: nat, j: nat)
    requires PinsKnown(repo, older) && KeysDistinct(newer + older)
    requires multiset(ranges) == multiset(RangeSeq(repo, older)) && i < |ranges| && j < |newer|
    ensures ranges[i].0 != newer[j].0
  {
    RangeKeys(repo, older, ranges, i);
    var k :| 0 <= k < |older| && older[k].0 == ranges[i].0;
    var all := newer + older;
    assert all[|newer| + k] == older[k] && all[j] == newer[j];
    assert all[j].0 != all[|newer| + k].0;
  }

  /** New ranges meet keys the cache does not have yet, so they are appended. */
  lemma RangesAppended(repo: Repo, newer: seq<Pair>, older: seq<Pair>, ranges: Ranges, added: Ranges)
    requires PinsKnown(repo, newer) && PinsKnown(repo, older) && PinsKnown(repo, newer + older)
    requires KeysDistinct(newer + older) && multiset(ranges) == multiset(RangeSeq(repo, older))
    requires added == RangeSeq(repo, newer + older)[..LastNum(newer + older, |newer|)]
    ensures SetAll(ranges, added) == ranges + added
  {
    var all := newer + older;
    assert forall j :: 0 <= j < |added| ==> added[j].0 == all[j].0 == newer[j].0;
    forall i, j | 0 <= i < |ranges| && 0 <= j < |added|
      ensures ranges[i].0 != added[j].0
    {
      KeysApart(repo, newer, older, ranges, i, j);
    }
    forall i, j | 0 <= i < j < |added|
      ensures added[i].0 != added[j].0
    {
      assert all[i].0 != all[j].0;
    }
    SetAllNewKeys(ranges, added);
  }

  lemma NewRangesAppended(repo: Repo, h: int, cur: nat, ranges: Ranges)
    requires repo.Valid() && -1 <= h <= cur < |repo.integration|
    requires multiset(ranges) == multiset(AllRanges(repo, h))
    ensures var n := LastNum(AllPairs(repo, cur), |NewCommits(repo, h, cur)|);
            var added := AllRanges(repo, cur)[..n];
            && AllRanges(repo, cur) == added + AllRanges(repo, h)
            && SetAll(ranges, added) == ranges + added
  {
    var newer, older := PairsOf(NewCommits(repo, h, cur)), AllPairs(repo, h);
    AllPairsSplit(repo, h, cur);
    AllPairsDistinct(repo, cur);
    PairsKnown(repo, h, cur);
    RangeSeqConcat(repo, newer, older);
    RangesAppended(repo, newer, older, ranges, AllRanges(repo, cur)[..LastNum(newer + older, |newer|)]);
  }

  lemma MultisetAppend(a: Ranges, b: Ranges, c: Ranges)
    requires multiset(a) == multiset(b)
    ensures multiset(a + c) == multiset(c + b) && |a| == |b|
  {
    assert |multiset(a)| == |a| && |multiset(b)| == |b|;
  }

  /** What a call changes, in terms of the history alone. */
  lemma UpdateIs(repo: Repo, d: Data, h: int, cur: nat)
    requires repo.Valid() && -1 <= h <= cur < |repo.integration|
    requires Known(repo, d) && UpTo(repo, d, h) && d.head != Some(repo.integration[cur].id)
    ensures var added := AllRanges(repo, cur)[..LastNum(AllPairs(repo, cur), |NewCommits(repo, h, cur)|)];
            Update(repo, d, cur) ==
            Data(Ids(NewCommits(repo, -1, cur)), Some(repo.integration[cur].id), AllPairs(repo, cur), SetAll(d.ranges, added))
  {
    if h >= 0 { SameId(repo, HeadIndex(repo, d), h); }
    AllPairsSplit(repo, h, cur);
  }

  lemma UpdateAdvances(repo: Repo, d: Data, h: int, cur: nat)
    requires repo.Valid() && -1 <= h <= cur < |repo.integration|
    requires Known(repo, d) && UpTo(repo, d, h)
    ensures UpTo(repo, Update(repo, d, cur), cur)
    ensures |d.ranges| <= |AllRanges(repo, cur)|
    ensures Update(repo, d, cur).ranges == d.ranges + AllRanges(repo, cur)[..|AllRanges(repo, cur)| - |d.ranges|]
  {
    if d.head == Some(repo.integration[cur].id) {
      SameId(repo, h, cur);
      MultisetAppend(d.ranges, AllRanges(repo, h), []);
      assert d.ranges == d.ranges + AllRanges(repo, cur)[..0];
    } else {
      UpdateIs(repo, d, h, cur);
      NewRangesAppended(repo, h, cur, d.ranges);
      var n := LastNum(AllPairs(repo, cur), |NewCommits(repo, h, cur)|);
      MultisetAppend(d.ranges, AllRanges(repo, h), AllRanges(repo, cur)[..n]);
    }
  }

  /** Any series of calls at growing heads leaves the cache of the last head: the pairs, and the
      ranges up to order, do not depend on the calls made on the way. */
  lemma {:induction false} RunReaches(repo: Repo, heads: seq<nat>)
    requires repo.Valid() && heads != [] && Growing(heads)
    requires forall i :: 0 <= i < |heads| ==> heads[i] < |repo.integration|
    ensures UpTo(repo, Run(repo, EMPTY, heads), heads[|heads| - 1])
    decreases |heads|
  {
    var front, last := heads[..|heads| - 1], heads[|heads| - 1];
    var d := Run(repo, EMPTY, front);
    if front == [] {
      UpdateAdvances(repo, d, -1, last);
    } else {
      RunReaches(repo, front);
      assert front[|front| - 1] == heads[|heads| - 2] <= last;
      UpdateAdvances(repo, d, front[|front| - 1], last);
    }
  }

  /** The cache after any series of calls at growing heads equals, entry for entry, the one that a
      single call at the last head builds from nothing; only the order of the ranges may differ. */
  lemma CacheAgreesWithOneCall(repo: Repo, heads: seq<nat>)
    requires repo.Valid() && heads != [] && Growing(heads)
    requires forall i :: 0 <= i < |heads| ==> heads[i] < |repo.integration|
    ensures var d, once := Run(repo, EMPTY, heads), Run(repo, EMPTY, [heads[|heads| - 1]]);
            d.(ranges := []) == once.(ranges := []) && multiset(d.ranges) == multiset(once.ranges)
  {
    RunReaches(repo, heads);
    RunReaches(repo, [heads[|heads| - 1]]);
  }

  // ------------------------------------------------------------ the inverse index

  /** reverse_commits as a function of the dict: a later entry overwrites an earlier one. */
  function Reverse(d: Ranges): map<Sha, Sha>
    decreases |d|
  {
    if d == [] then map[]
    else
      var (integ, revs) := d[|d| - 1];
      Reverse(d[..|d| - 1]) + (map f | f in revs :: integ)
  }

  method ReverseCommits(d: Ranges) returns (r: map<Sha, Sha>)
    ensures r == Reverse(d)
  {
    r := map[];
    for i := 0 to |d|
      invariant r == Reverse(d[..i])
    {
      var (integ, revs) := d[i];
      var before := r;
      for j := 0 to |revs|
        invariant r == before + (map f | f in revs[..j] :: integ)
      {
        r := r[revs[j] := integ];
        assert revs[..j + 1] == revs[..j] + [revs[j]];
      }
      assert revs[..|revs|] == revs;
      assert d[..i + 1][..i] == d[..i];
    }
    assert d[..|d|] == d;
  }

  /** The last entry that contains `f`. */
  ghost predicate LastWith(d: Ranges, i: nat, f: Sha) {
    i < |d| && f in d[i].1 && forall j :: i < j < |d| ==> f !in d[j].1
  }

  lemma {:induction false} ReverseIsLast(d: Ranges, f: Sha) returns (i: nat)
    ensures f !in Reverse(d) ==> forall j :: 0 <= j < |d| ==> f !in d[j].1
    ensures f in Reverse(d) ==> LastWith(d, i, f) && Reverse(d)[f] == d[i].0
    decreases |d|
  {
    i := 0;
    if d != [] {
      if f in d[|d| - 1].1 {
        i := |d| - 1;
      } else {
        i := ReverseIsLast(d[..|d| - 1], f);
      }
    }
  }

  /** No fuchsia revision lies in two ranges. */
  ghost predicate Disjoint(d: Ranges) {
    forall i, j, f :: 0 <= i < j < |d| && f in d[i].1 ==> f !in d[j].1
  }

  lemma ReverseValue(d: Ranges, i: nat, f: Sha)
    requires Disjoint(d) && i < |d| && f in d[i].1
    ensures f in Reverse(d) && Reverse(d)[f] == d[i].0
  {
    var k := ReverseIsLast(d, f);
  }

  lemma ReverseOrderFree(a: Ranges, b: Ranges)
    requires multiset(a) == multiset(b) && Disjoint(a)
    ensures Reverse(b) == Reverse(a)
  {
    forall f
      ensures f in Reverse(b) <==> f in Reverse(a)
      ensures f in Reverse(a) ==> Reverse(b)[f] == Reverse(a)[f]
    {
      var i := ReverseIsLast(a, f);
      var j := ReverseIsLast(b, f);
      if f in Reverse(a) {
        assert a[i] in multiset(a);
        assert a[i] in multiset(b);
        var k :| 0 <= k < |b| && b[k] == a[i];
        assert f in b[k].1;
      }
      if f in Reverse(b) {
        assert b[j] in multiset(b);
        assert b[j] in multiset(a);
        var k :| 0 <= k < |a| && a[k] == b[j];
        ReverseValue(a, k, f);
      }
    }
  }

  /** With disjoint ranges the returned index, too, is independent of the calls made on the way. */
  lemma IndexIndependentOfCalls(repo: Repo, heads: seq<nat>)
    requires repo.Valid() && heads != [] && Growing(heads)
    requires forall i :: 0 <= i < |heads| ==> heads[i] < |repo.integration|
    requires Disjoint(AllRanges(repo, heads[|heads| - 1]))
    ensures Reverse(Run(repo, EMPTY, heads).ranges) == Reverse(AllRanges(repo, heads[|heads| - 1]))
  {
    RunReaches(repo, heads);
    ReverseOrderFree(AllRanges(repo, heads[|heads| - 1]), Run(repo, EMPTY, heads).ranges);
  }

  function Reversed<T>(s: seq<T>): (r: seq<T>)
    ensures |r| == |s| && forall i :: 0 <= i < |s| ==> r[i] == s[|s| - 1 - i]
  {
    seq(|s|, i requires 0 <= i < |s| => s[|s| - 1 - i])
  }

  function UpToSeq(h: nat): (r: seq<nat>)
    ensures |r| == h + 1 && forall i :: 0 <= i < |r| ==> r[i] == i
  {
    seq(h + 1, i requires 0 <= i => i)
  }

  /** One call: everything is new, and the ranges are entered newest first. */
  lemma OneCallOrder(repo: Repo, h: nat)
    requires repo.Valid() && h < |repo.integration|
    ensures Run(repo, EMPTY, [h]).ranges == AllRanges(repo, h)
  {
    assert Run(repo, EMPTY, [h][..0]) == EMPTY;
    UpdateAdvances(repo, EMPTY, -1, h);
  }

  lemma ReversedCons<T>(added: seq<T>, older: seq<T>)
    requires |added| <= 1
    ensures Reversed(added + older) == Reversed(older) + added
  {
  }

  /** A call at every head: the ranges are entered oldest first. */
  lemma {:induction false} EveryCallOrder(repo: Repo, h: nat)
    requires repo.Valid() && h < |repo.integration|
    ensures Run(repo, EMPTY, UpToSeq(h)).ranges == Reversed(AllRanges(repo, h))
  {
    var front := UpToSeq(h)[..h];
    if h == 0 {
      assert UpToSeq(0) == [0];
      OneCallOrder(repo, 0);
      assert |AllPairs(repo, 0)| <= 1;
    } else {
      assert front == UpToSeq(h - 1);
      EveryCallOrder(repo, h - 1);
      RunReaches(repo, front);
      EveryCallStep(repo, h, Run(repo, EMPTY, front));
    }
  }

  lemma EveryCallStep(repo: Repo, h: nat, d: Data)
    requires repo.Valid() && 0 < h < |repo.integration| && Known(repo, d) && UpTo(repo, d, h - 1)
    requires d.ranges == Reversed(AllRanges(repo, h - 1))
    ensures Update(repo, d, h).ranges == Reversed(AllRanges(repo, h))
  {
    var older, n := AllRanges(repo, h - 1), |AllRanges(repo, h)| - |d.ranges|;
    UpdateAdvances(repo, d, h - 1, h);
    AtMostOneMore(repo, h);
    ReversedCons(AllRanges(repo, h)[..n], older);
  }

  lemma AtMostOneMore(repo: Repo, h: nat)
    requires repo.Valid() && 0 < h < |repo.integration|
    ensures var all, older := AllRanges(repo, h), AllRanges(repo, h - 1);
            |older| <= |all| <= |older| + 1 && all == all[..|all| - |older|] + older
  {
    NewRangesAppended(repo, h - 1, h, AllRanges(repo, h - 1));
    assert |NewCommits(repo, h - 1, h)| <= 1;
  }

  /** The last entry of the reversed order is the first of the order. */
  lemma LastOfReversed(all: Ranges, i: nat, f: Sha)
    requires LastWith(Reversed(all), i, f)
    ensures f in all[|all| - 1 - i].1 && forall k :: 0 <= k < |all| - 1 - i ==> f !in all[k].1
  {
    var back := Reversed(all);
    forall k | 0 <= k < |all| - 1 - i
      ensures f !in all[k].1
    {
      assert back[|all| - 1 - k] == all[k];
    }
  }

  /** If two orders of the same overlapping ranges are opposite, their inverses differ. */
  lemma OverlapShows(all: Ranges)
    requires !Disjoint(all) && forall i, j :: 0 <= i < j < |all| ==> all[i].0 != all[j].0
    ensures Reverse(all) != Reverse(Reversed(all))
  {
    var i, j, f :| 0 <= i < j < |all| && f in all[i].1 && f in all[j].1;
    var last := ReverseIsLast(all, f);
    assert j <= last;
    var back := Reversed(all);
    assert back[|all| - 1 - i] == all[i];
    var k := ReverseIsLast(back, f);
    LastOfReversed(all, k, f);
    var first := |all| - 1 - k;
    assert back[k] == all[first] && first <= i < last;
    assert all[first].0 != all[last].0;
  }

  /** A series of calls at growing heads, the last of them `h`. */
  ghost predicate Calls(repo: Repo, heads: seq<nat>, h: nat) {
    && heads != [] && Growing(heads) && heads[|heads| - 1] == h
    && forall i :: 0 <= i < |heads| ==> heads[i] < |repo.integration|
  }

  ghost function IndexAfter(repo: Repo, heads: seq<nat>, h: nat): map<Sha, Sha>
    requires repo.Valid() && Calls(repo, heads, h)
  {
    Reverse(Run(repo, EMPTY, heads).ranges)
  }

  /** The index returned at head `h` is the same after every series of calls if and only if no
      revision lies in two ranges. (One does when a pin goes back and then forward again.) */
  lemma IndexIndependentIffDisjoint(repo: Repo, h: nat)
    requires repo.Valid() && h < |repo.integration|
    ensures Disjoint(AllRanges(repo, h)) <==>
            forall heads :: Calls(repo, heads, h) ==> IndexAfter(repo, heads, h) == IndexAfter(repo, [h], h)
  {
    if Disjoint(AllRanges(repo, h)) {
      forall heads | Calls(repo, heads, h)
        ensures IndexAfter(repo, heads, h) == IndexAfter(repo, [h], h)
      {
        IndexIndependentOfCalls(repo, heads);
        IndexIndependentOfCalls(repo, [h]);
      }
    } else {
      OverlapDistinguishesCalls(repo, h);
    }
  }

  lemma OverlapDistinguishesCalls(repo: Repo, h: nat)
    requires repo.Valid() && h < |repo.integration| && !Disjoint(AllRanges(repo, h))
    ensures Calls(repo, UpToSeq(h), h) && Calls(repo, [h], h)
    ensures IndexAfter(repo, UpToSeq(h), h) != IndexAfter(repo, [h], h)
  {
    OneCallOrder(repo, h);
    EveryCallOrder(repo, h);
    AllRangesDistinct(repo, h);
    OverlapShows(AllRanges(repo, h));
  }

  lemma AllRangesDistinct(repo: Repo, h: nat)
    requires repo.Valid() && h < |repo.integration|
    ensures var all := AllRanges(repo, h); forall i, j :: 0 <= i < j < |all| ==> all[i].0 != all[j].0
  {
    AllPairsDistinct(repo, h);
  }

  // ------------------------------------------------ meaning of the inverse index

  function PinIndex(repo: Repo, pairs: seq<Pair>, i: nat): (k: nat)
    requires PinsKnown(repo, pairs) && i < |pairs|
    ensures k < |repo.fuchsia| && repo.fuchsia[k] == pairs[i].1
  {
    IndexOf(repo.fuchsia, pairs[i].1)
  }

  /** Newer integration commits never pin an older fuchsia revision. */
  ghost predicate PinsGrow(repo: Repo, pairs: seq<Pair>)
    requires PinsKnown(repo, pairs)
  {
    forall i, j :: 0 <= i < j < |pairs| ==> PinIndex(repo, pairs, j) <= PinIndex(repo, pairs, i)
  }

  lemma {:induction false} BetweenHas(history: seq<Sha>, lo: nat, hi: nat, x: nat)
    requires hi < |history| && x < |history|
    requires Distinct(history)
    ensures history[x] in Between(history, lo, hi) <==> lo < x <= hi
    decreases hi
  {
    DistinctAt(history, x, hi);
    if hi > lo { BetweenHas(history, lo, hi - 1, x); }
  }

  lemma {:induction false} BetweenWithin(history: seq<Sha>, lo: nat, hi: nat)
    requires hi < |history|
    ensures forall f :: f in Between(history, lo, hi) ==> f in history
    decreases hi
  {
    if hi > lo { BetweenWithin(history, lo, hi - 1); }
  }

  /** Range `i` holds exactly the revisions after the next older pin and up to its own. */
  lemma RangeHas(repo: Repo, pairs: seq<Pair>, i: nat, x: nat)
    requires repo.Valid() && PinsKnown(repo, pairs) && i + 1 < |pairs| && x < |repo.fuchsia|
    ensures repo.fuchsia[x] in RangeSeq(repo, pairs)[i].1 <==> PinIndex(repo, pairs, i + 1) < x <= PinIndex(repo, pairs, i)
  {
    BetweenHas(repo.fuchsia, PinIndex(repo, pairs, i + 1), PinIndex(repo, pairs, i), x);
  }

  lemma GrowingPinsDisjoint(repo: Repo, pairs: seq<Pair>)
    requires repo.Valid() && PinsKnown(repo, pairs) && PinsGrow(repo, pairs)
    ensures Disjoint(RangeSeq(repo, pairs))
  {
    var d := RangeSeq(repo, pairs);
    forall i, j, f | 0 <= i < j < |d| && f in d[i].1
      ensures f !in d[j].1
    {
      BetweenWithin(repo.fuchsia, PinIndex(repo, pairs, i + 1), PinIndex(repo, pairs, i));
      var x :| 0 <= x < |repo.fuchsia| && repo.fuchsia[x] == f;
      RangeHas(repo, pairs, i, x);
      RangeHas(repo, pairs, j, x);
      assert PinIndex(repo, pairs, j) <= PinIndex(repo, pairs, i + 1) by {
        if j == i + 1 { } else { assert i + 1 < j; }
      }
    }
  }

  /** The oldest pair whose pin contains revision number `x`. */
  ghost predicate OldestContaining(repo: Repo, pairs: seq<Pair>, i: nat, x: nat)
    requires PinsKnown(repo, pairs)
  {
    && i < |pairs| && x <= PinIndex(repo, pairs, i)
    && forall j :: i < j < |pairs| ==> PinIndex(repo, pairs, j) < x
  }

  lemma {:induction false} FindOldest(repo: Repo, pairs: seq<Pair>, x: nat, n: nat) returns (i: nat)
    requires PinsKnown(repo, pairs) && 0 < n <= |pairs| && x <= PinIndex(repo, pairs, 0)
    requires forall j :: n <= j < |pairs| ==> PinIndex(repo, pairs, j) < x
    ensures OldestContaining(repo, pairs, i, x)
    decreases n
  {
    if x <= PinIndex(repo, pairs, n - 1) { i := n - 1; } else { i := FindOldest(repo, pairs, x, n - 1); }
  }

  /** With pins that never go back, after any series of calls: a fuchsia revision is in the index
      exactly if it comes after the oldest pin and not after the newest, and it is then mapped to
      the oldest integration commit that contains it. */
  lemma IndexNamesFirstIntegration(repo: Repo, heads: seq<nat>, h: nat, x: nat) returns (i: nat)
    requires repo.Valid() && h < |repo.integration| && Calls(repo, heads, h) && x < |repo.fuchsia|
    requires PinsGrow(repo, AllPairs(repo, h)) && AllPairs(repo, h) != []
    ensures var pairs, index := AllPairs(repo, h), IndexAfter(repo, heads, h);
            && (repo.fuchsia[x] in index <==> PinIndex(repo, pairs, |pairs| - 1) < x <= PinIndex(repo, pairs, 0))
            && (repo.fuchsia[x] in index ==>
                  OldestContaining(repo, pairs, i, x) && index[repo.fuchsia[x]] == pairs[i].0)
  {
    var pairs := AllPairs(repo, h);
    var d, f := RangeSeq(repo, pairs), repo.fuchsia[x];
    GrowingPinsDisjoint(repo, pairs);
    IndexIndependentOfCalls(repo, heads);
    i := 0;
    if PinIndex(repo, pairs, |pairs| - 1) < x <= PinIndex(repo, pairs, 0) {
      i := FindOldest(repo, pairs, x, |pairs|);
      assert i < |pairs| - 1;
      RangeHas(repo, pairs, i, x);
      ReverseValue(d, i, f);
    } else {
      forall k | 0 <= k < |d|
        ensures f !in d[k].1
      {
        RangeHas(repo, pairs, k, x);
      }
      var k := ReverseIsLast(d, f);
    }
  }

  /** The range of pair `i` and that of the older pair `j`, as intervals of the fuchsia history, meet: more
      than the next older pin of both, and not more than the own pin of both. */
  ghost predicate PinsCross(repo: Repo, pairs: seq<Pair>, i: nat, j: nat)
    requires PinsKnown(repo, pairs) && i < j < |pairs| - 1
  {
    Max(PinIndex(repo, pairs, i + 1), PinIndex(repo, pairs, j + 1)) < Min(PinIndex(repo, pairs, i), PinIndex(repo, pairs, j))
  }

  function Max(a: int, b: int): int { if a <= b then b else a }

  /** Ranges are disjoint exactly if no two of the intervals between neighbouring pins meet. */
  lemma DisjointIffNoCrossing(repo: Repo, pairs: seq<Pair>)
    requires repo.Valid() && PinsKnown(repo, pairs)
    ensures Disjoint(RangeSeq(repo, pairs)) <==> forall i, j :: 0 <= i < j < |pairs| - 1 ==> !PinsCross(repo, pairs, i, j)
  {
    var d := RangeSeq(repo, pairs);
    if Disjoint(d) {
      forall i, j | 0 <= i < j < |pairs| - 1
        ensures !PinsCross(repo, pairs, i, j)
      {
        var x := Min(PinIndex(repo, pairs, i), PinIndex(repo, pairs, j));
        RangeHas(repo, pairs, i, x);
        RangeHas(repo, pairs, j, x);
      }
    }
    if forall i, j :: 0 <= i < j < |pairs| - 1 ==> !PinsCross(repo, pairs, i, j) {
      forall i, j, f | 0 <= i < j < |d| && f in d[i].1
        ensures f !in d[j].1
      {
        BetweenWithin(repo.fuchsia, PinIndex(repo, pairs, i + 1), PinIndex(repo, pairs, i));
        var x :| 0 <= x < |repo.fuchsia| && repo.fuchsia[x] == f;
        RangeHas(repo, pairs, i, x);
        RangeHas(repo, pairs, j, x);
        assert !PinsCross(repo, pairs, i, j);
      }
    }
  }

  /** In terms of the pins alone: the index returned at head `h` is the same after every series of calls if
      and only if no two intervals between neighbouring pins meet, as they do after a pin that goes back and
      is passed again. */
  lemma IndexIndependentIffNoCrossing(repo: Repo, h: nat)
    requires repo.Valid() && h < |repo.integration|
    ensures var pairs := AllPairs(repo, h);
            (forall i, j :: 0 <= i < j < |pairs| - 1 ==> !PinsCross(repo, pairs, i, j)) <==>
            forall heads :: Calls(repo, heads, h) ==> IndexAfter(repo, heads, h) == IndexAfter(repo, [h], h)
  {
    DisjointIffNoCrossing(repo, AllPairs(repo, h));
    IndexIndependentIffDisjoint(repo, h);
  }

  // ------------------------------------------------------- the script's own form

  /** The `data` dictionary, updated in place. */
  class StemCache {
    var commits: seq<Sha>
    var head: Option<Sha>
    var pairs: seq<Pair>
    var ranges: Ranges

    constructor ()
      ensures View() == EMPTY
    {
      commits, head, pairs, ranges := [], None, [], [];
    }

    ghost function View(): Data
      reads this
    {
      Data(commits, head, pairs, ranges)
    }

    /** The loop that logs between neighbouring pins. */
    method EnterRanges(repo: Repo, lastNum: nat)
      requires PinsKnown(repo, pairs) && lastNum <= |RangeSeq(repo, pairs)|
      modifies this`ranges
      ensures ranges == SetAll(old(ranges), RangeSeq(repo, pairs)[..lastNum])
    {
      ghost var all := RangeSeq(repo, pairs);
      for i := 0 to lastNum
        invariant ranges == SetAll(old(ranges), all[..i])
      {
        var revs := FuchsiaLog(repo, pairs[i + 1].1, pairs[i].1);
        assert all[..i + 1][..i] == all[..i] && all[..i + 1][i] == (pairs[i].0, revs);
        ranges := DictSet(ranges, pairs[i].0, revs);
      }
    }

    method UpdateStemHistory(repo: Repo, cur: nat) returns (index: map<Sha, Sha>)
      requires repo.Valid() && cur < |repo.integration| && Known(repo, View())
      modifies this
      ensures View() == Update(repo, old(View()), cur) && index == Reverse(ranges)
    {
      if head == Some(repo.integration[cur].id) {
        index := ReverseCommits(ranges);
        return;
      }
      var from := if head == None then -1 else FindCommit(repo, head.value, |repo.integration|);
      var added := NewCommits(repo, from, cur);
      PairsKnown(repo, from, cur);
      commits := Ids(added) + commits;
      head := Some(repo.integration[cur].id);
      var newPairs := [];
      for i := 0 to |added|
        invariant newPairs == PairsOf(added)[..i]
      {
        newPairs := newPairs + [(added[i].id, added[i].pin)];
      }
      assert newPairs == PairsOf(added) && from == HeadIndex(repo, old(View()));
      ConcatKnown(repo, newPairs, pairs);
      pairs := newPairs + pairs;
      EnterRanges(repo, LastNum(pairs, |newPairs|));
      index := ReverseCommits(ranges);
    }
  }
}
