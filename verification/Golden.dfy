/** tools/golden-util: regenerating golden files and testing against them. */
module Golden {
  import opened Basics
  import opened Text
  import opened GoldenText

  /** What a path names. `Other` is anything os.OpenFile cannot open for writing and
      ReadDir does not call regular, such as a directory. */
  datatype Node = Regular(bytes: string) | Other

  type Files = map<string, Node>

  /** The files, and whether operations on them may fail of themselves: on a reliable file system nothing goes
      wrong but for the reasons that the files give. */
  class FileSystem {
    var files: Files
    const reliable: bool

    constructor (files: Files, reliable: bool)
      ensures this.files == files && this.reliable == reliable
    {
      this.files, this.reliable := files, reliable;
    }

    /** Whether an operation fails. */
    method Fails() returns (fails: bool)
      ensures reliable ==> !fails
    {
      fails := *;
      if reliable { fails := false; }
    }

    /** How many of `n` characters a write gets through. */
    method WritesOf(n: nat) returns (k: nat)
      ensures k <= n && (reliable ==> k == n)
    {
      var m: int := *;
      k := if reliable || m > n then n else if m < 0 then 0 else m;
    }
  }

  datatype Entry = Entry(golden: string, generated: string)

  datatype Manifest = Manifest(testDir: string, regenDir: string, entries: seq<Entry>)

  /** What validate promises about an accepted manifest. */
  ghost predicate Valid(m: Manifest) {
    && m.testDir != "" && m.regenDir != ""
    && (forall e :: e in m.entries ==> e.generated != "" && GoldenName(e.golden) && Ext(e.generated) != GOLDEN)
    && (forall i, j :: 0 <= i < j < |m.entries| ==>
          m.entries[i].golden != m.entries[j].golden && m.entries[i].generated != m.entries[j].generated)
  }

  method Validate(m: Manifest) returns (ok: bool)
    ensures ok <==> Valid(m)
  {
    if m.testDir == "" || m.regenDir == "" { return false; }
    var seenGolden, seenGenerated := {}, {};
    for i := 0 to |m.entries|
      invariant seenGolden == set k | 0 <= k < i :: m.entries[k].golden
      invariant seenGenerated == set k | 0 <= k < i :: m.entries[k].generated
      invariant Valid(Manifest(m.testDir, m.regenDir, m.entries[..i]))
    {
      var e := m.entries[i];
      assert e in m.entries;
      if e.golden == "" { assert Ext("") == ""; return false; }
      if e.generated == "" { return false; }
      if e.golden in seenGolden { return false; }
      if e.generated in seenGenerated { return false; }
      seenGolden, seenGenerated := seenGolden + {e.golden}, seenGenerated + {e.generated};
      if '/' in e.golden { return false; }
      if Ext(e.golden) != GOLDEN { return false; }
      if Ext(e.generated) == GOLDEN { return false; }
      assert m.entries[..i + 1] == m.entries[..i] + [e];
    }
    assert m.entries[..|m.entries|] == m.entries;
    return true;
  }

  // ---------------------------------------------------------- reading the state

  function TxtPath(dir: string): string { JoinPath(dir, GOLDENS_TXT) }

  /** The set goldens.txt lists, if it is there and well formed. */
  function Listed(fs: Files, dir: string): Option<set<string>> {
    var p := TxtPath(dir);
    if p in fs && fs[p].Regular? then Listing(fs[p].bytes) else None
  }

  predicate IsRegular(fs: Files, path: string) { path in fs && fs[path].Regular? }

  /** Every name in goldens.txt is a file that exists. */
  ghost predicate ListedExist(fs: Files, dir: string) {
    Listed(fs, dir).Some? ==> forall n :: n in Listed(fs, dir).value ==> JoinPath(dir, n) in fs
  }

  function GoldensOf(entries: seq<Entry>): set<string> { set e | e in entries :: e.golden }

  function Goldens(m: Manifest): set<string> { GoldensOf(m.entries) }

  ghost predicate SameExcept(a: Files, b: Files, path: string) {
    forall p :: p != path ==> (p in a <==> p in b) && (p in a && p in b ==> a[p] == b[p])
  }

  // ------------------------------------------------------------ copyIfDifferent

  /** The bytes of a regular file that are still there if its truncation is refused. */
  function Kept(fs: Files, path: string, refused: bool): string {
    if refused && IsRegular(fs, path) then fs[path].bytes else ""
  }

  /** When a copy can be made: there is a file to copy, and nothing else in the way of it. */
  predicate CanCopy(fs: Files, dst: string, src: string) { IsRegular(fs, src) && (dst in fs ==> fs[dst].Regular?) }

  /** copyIfDifferent. Any step may fail, and a failed copy leaves some prefix behind. The error of Truncate is
      ignored: `refused` says that there was one, and then the end of a longer file stays. On a reliable file
      system the copy succeeds exactly if it can be made. */
  method CopyIfDifferent(fs: FileSystem, dst: string, src: string) returns (ok: bool, ghost refused: bool)
    requires dst != src
    modifies fs
    ensures SameExcept(old(fs.files), fs.files, dst)
    ensures dst in old(fs.files) ==> dst in fs.files
    ensures ok ==> CanCopy(old(fs.files), dst, src) && dst in fs.files
                   && fs.files[dst] == Regular(Over(fs.files[src].bytes, Kept(old(fs.files), dst, refused)))
    ensures ok ==> (fs.files[dst] == fs.files[src] <==> |Kept(old(fs.files), dst, refused)| <= |fs.files[src].bytes|)
    ensures fs.reliable ==> !refused && (ok <==> CanCopy(old(fs.files), dst, src))
  {
    ok, refused := false, false;
    var fault := fs.Fails();
    if fault || src !in fs.files { return; }
    fault := fs.Fails();
    if fault || (dst in fs.files && fs.files[dst] == Other) { return; }
    if dst !in fs.files { fs.files := fs.files[dst := Regular("")]; }
    fault := fs.Fails();
    if fault { return; }
    if fs.files[src] == Other {
      // sizes may or may not agree; reading the source fails either way
      var truncated: bool := *;
      if truncated { fs.files := fs.files[dst := Regular("")]; }
      return;
    }
    var srcBytes, dstBytes := fs.files[src].bytes, fs.files[dst].bytes;
    if |srcBytes| != |dstBytes| {
      ok, refused := Overwrite(fs, dst, srcBytes);
      return;
    }
    fault := fs.Fails();
    if fault { return; }
    if srcBytes == dstBytes { ok := true; return; }
    ok, refused := Overwrite(fs, dst, srcBytes);
  }

  /** Truncate, whose error is ignored, and a write from the start that may stop early. */
  method Overwrite(fs: FileSystem, dst: string, bytes: string) returns (ok: bool, ghost refused: bool)
    requires IsRegular(fs.files, dst)
    modifies fs
    ensures SameExcept(old(fs.files), fs.files, dst) && dst in fs.files
    ensures ok ==> fs.files[dst] == Regular(Over(bytes, Kept(old(fs.files), dst, refused)))
    ensures fs.reliable ==> ok && !refused
  {
    var fails := fs.Fails();
    refused := fails;
    var before := if fails then fs.files[dst].bytes else "";
    var n := fs.WritesOf(|bytes|);
    ok := n == |bytes|;
    assert ok ==> bytes[..n] == bytes;
    fs.files := fs.files[dst := Regular(Over(bytes[..n], before))];
  }

  // ------------------------------------------------------------------ regen

  /** The .golden regular files of a directory. */
  ghost predicate StrayGolden(fs: Files, dir: string, n: string) {
    '/' !in n && Ext(n) == GOLDEN && IsRegular(fs, JoinPath(dir, n))
  }

  /** os.ReadDir, reduced to the regular .golden files. */
  function DirGoldens(fs: Files, dir: string): (r: set<string>)
    ensures forall n :: n in r <==> StrayGolden(fs, dir, n)
  {
    var r := set p | p in fs.Keys && StartsWith(p, dir + "/") && fs[p].Regular? &&
                     '/' !in p[|dir| + 1..] && Ext(p[|dir| + 1..]) == GOLDEN :: p[|dir| + 1..];
    assert forall n :: n in r <==> StrayGolden(fs, dir, n) by {
      forall n | StrayGolden(fs, dir, n)
        ensures n in r
      {
        var p := JoinPath(dir, n);
        assert p[|dir| + 1..] == n && p[..|dir| + 1] == dir + "/";
      }
      forall n | n in r
        ensures StrayGolden(fs, dir, n)
      {
        var p :| p in fs.Keys && StartsWith(p, dir + "/") && fs[p].Regular? &&
                 '/' !in p[|dir| + 1..] && Ext(p[|dir| + 1..]) == GOLDEN && p[|dir| + 1..] == n;
        assert p == JoinPath(dir, n);
      }
    }
    r
  }

  /** "At every point it reflects the current state of the filesystem": the names are there. */
  ghost predicate Reflects(fs: Files, dir: string, names: set<string>) {
    forall n :: n in names ==> JoinPath(dir, n) in fs
  }

  ghost predicate SameOutside(a: Files, b: Files, paths: set<string>) {
    forall p :: p !in paths ==> (p in a <==> p in b) && (p in a && p in b ==> a[p] == b[p])
  }

  ghost function Paths(dir: string, names: set<string>): set<string> { set n | n in names :: JoinPath(dir, n) }

  /** An entry's golden holds the bytes of its generated file, and what it kept if it was not truncated. */
  ghost predicate CopiedEntry(fs: Files, fs': Files, dir: string, e: Entry, refused: bool) {
    && IsRegular(fs', e.generated) && JoinPath(dir, e.golden) in fs'
    && fs'[JoinPath(dir, e.golden)] == Regular(Over(fs'[e.generated].bytes, Kept(fs, JoinPath(dir, e.golden), refused)))
  }

  ghost predicate Copied(fs: Files, fs': Files, dir: string, entries: seq<Entry>, refused: set<string>) {
    forall e :: e in entries ==> CopiedEntry(fs, fs', dir, e, e.golden in refused)
  }

  /** No golden path is a generated path, nor goldens.txt: this is what the extension checks are for. */
  lemma GoldenPathsApart(m: Manifest, n: string)
    requires Valid(m) && GoldenName(n)
    ensures forall dir :: JoinPath(dir, n) != TxtPath(dir)
    ensures forall dir, e :: e in m.entries ==> JoinPath(dir, n) != e.generated
  {
    GoldensTxtExt();
    forall dir
      ensures Ext(JoinPath(dir, n)) == GOLDEN && Ext(TxtPath(dir)) == ".txt"
    {
      ExtOfJoin(dir, n);
      ExtOfJoin(dir, GOLDENS_TXT);
    }
  }

  lemma PathsApart(m: Manifest, dir: string, names: set<string>)
    requires Valid(m) && forall n :: n in names ==> GoldenName(n)
    ensures TxtPath(dir) !in Paths(dir, names)
    ensures forall e :: e in m.entries ==> e.generated !in Paths(dir, names)
    ensures forall n :: n in names <==> JoinPath(dir, n) in Paths(dir, names)
  {
    forall n | n in names { GoldenPathsApart(m, n); }
    forall n
      ensures n in names <==> JoinPath(dir, n) in Paths(dir, names)
    {
      forall k | k in names { JoinInjective(dir, n, k); }
    }
  }

  /** What one call of copyIfDifferent towards `dst` may do. */
  ghost predicate Touched(fs: Files, fs': Files, dst: string) {
    SameExcept(fs, fs', dst) && (dst in fs ==> dst in fs')
  }

  /** No file has vanished, and only the named ones have changed. */
  ghost predicate OnlyTouched(fs: Files, fs': Files, dir: string, names: set<string>) {
    fs.Keys <= fs'.Keys && SameOutside(fs, fs', Paths(dir, names))
  }

  lemma TouchOne(fs: Files, fs1: Files, fs2: Files, dir: string, names: set<string>, n: string)
    requires OnlyTouched(fs, fs1, dir, names) && Touched(fs1, fs2, JoinPath(dir, n))
    ensures OnlyTouched(fs, fs2, dir, names + {n})
  {
    assert Paths(dir, names + {n}) == Paths(dir, names) + {JoinPath(dir, n)};
  }

  /** What an entry's copy starts from is what was there before regen. */
  lemma NotYetTouched(fs: Files, fs1: Files, m: Manifest, i: nat)
    requires Valid(m) && i < |m.entries| && OnlyTouched(fs, fs1, m.regenDir, GoldensOf(m.entries[..i]))
    ensures var g := JoinPath(m.regenDir, m.entries[i].golden); forall b :: Kept(fs1, g, b) == Kept(fs, g, b)
  {
    var dir, n := m.regenDir, m.entries[i].golden;
    forall k | k in GoldensOf(m.entries[..i])
      ensures JoinPath(dir, k) != JoinPath(dir, n)
    {
      JoinInjective(dir, k, n);
    }
    assert JoinPath(dir, n) !in Paths(dir, GoldensOf(m.entries[..i]));
  }

  ghost predicate EntryCanCopy(fs: Files, dir: string, e: Entry) { CanCopy(fs, JoinPath(dir, e.golden), e.generated) }

  /** Every generated file is there, and no golden's path names anything but a file. */
  ghost predicate AllCanCopy(fs: Files, dir: string, entries: seq<Entry>) {
    forall e :: e in entries ==> EntryCanCopy(fs, dir, e)
  }

  lemma StillCanCopy(fs: Files, fs1: Files, m: Manifest, i: nat)
    requires Valid(m) && i < |m.entries| && OnlyTouched(fs, fs1, m.regenDir, GoldensOf(m.entries[..i]))
    ensures EntryCanCopy(fs1, m.regenDir, m.entries[i]) <==> EntryCanCopy(fs, m.regenDir, m.entries[i])
  {
    var dir, n := m.regenDir, m.entries[i].golden;
    forall k | k in GoldensOf(m.entries[..i])
      ensures JoinPath(dir, k) != JoinPath(dir, n) && JoinPath(dir, k) != m.entries[i].generated
    {
      JoinInjective(dir, k, n);
      GoldenPathsApart(m, k);
    }
    assert JoinPath(dir, n) !in Paths(dir, GoldensOf(m.entries[..i])) && m.entries[i].generated !in Paths(dir, GoldensOf(m.entries[..i]));
  }

  /** Copying one entry leaves the copies made before. */
  lemma CopiedStays(fs: Files, fs1: Files, fs2: Files, m: Manifest, i: nat, refused: set<string>, now: set<string>)
    requires Valid(m) && i < |m.entries| && Copied(fs, fs1, m.regenDir, m.entries[..i], refused)
    requires Touched(fs1, fs2, JoinPath(m.regenDir, m.entries[i].golden))
    requires forall n :: n != m.entries[i].golden ==> (n in now <==> n in refused)
    ensures Copied(fs, fs2, m.regenDir, m.entries[..i], now)
  {
    var dir, e := m.regenDir, m.entries[i];
    GoldenPathsApart(m, e.golden);
    forall x | x in m.entries[..i]
      ensures CopiedEntry(fs, fs2, dir, x, x.golden in now)
    {
      JoinInjective(dir, x.golden, e.golden);
      assert CopiedEntry(fs, fs1, dir, x, x.golden in refused);
    }
  }

  lemma CopiedOneMore(fs: Files, fs': Files, m: Manifest, i: nat, refused: set<string>)
    requires i < |m.entries| && Copied(fs, fs', m.regenDir, m.entries[..i], refused)
    requires CopiedEntry(fs, fs', m.regenDir, m.entries[i], m.entries[i].golden in refused)
    ensures Copied(fs, fs', m.regenDir, m.entries[..i + 1], refused)
  {
    assert m.entries[..i + 1] == m.entries[..i] + [m.entries[i]];
  }

  lemma OnlyTouchedMore(fs: Files, fs': Files, dir: string, some: set<string>, all: set<string>)
    requires OnlyTouched(fs, fs', dir, some) && some <= all
    ensures OnlyTouched(fs, fs', dir, all)
  {
    assert Paths(dir, some) <= Paths(dir, all);
  }

  /** The copying loop of regen. `refused` are the goldens whose truncation failed. */
  method CopyAll(fs: FileSystem, m: Manifest, oldGoldens: set<string>)
    returns (ok: bool, newGoldens: set<string>, ghost refused: set<string>)
    requires Valid(m)
    modifies fs
    ensures OnlyTouched(old(fs.files), fs.files, m.regenDir, Goldens(m))
    ensures oldGoldens <= newGoldens <= oldGoldens + Goldens(m)
    ensures Reflects(fs.files, m.regenDir, newGoldens - oldGoldens)
    ensures ok ==> newGoldens == oldGoldens + Goldens(m) && Copied(old(fs.files), fs.files, m.regenDir, m.entries, refused)
    ensures ok ==> AllCanCopy(old(fs.files), m.regenDir, m.entries)
    ensures fs.reliable ==> refused == {} && (ok <==> AllCanCopy(old(fs.files), m.regenDir, m.entries))
  {
    newGoldens, refused := oldGoldens, {};
    ghost var fs0 := fs.files;
    for i := 0 to |m.entries|
      invariant OnlyTouched(fs0, fs.files, m.regenDir, GoldensOf(m.entries[..i]))
      invariant Copied(fs0, fs.files, m.regenDir, m.entries[..i], refused)
      invariant newGoldens == oldGoldens + GoldensOf(m.entries[..i])
      invariant AllCanCopy(fs0, m.regenDir, m.entries[..i]) && (fs.reliable ==> refused == {})
    {
      ok, refused := CopyEntry(fs, m, i, refused, fs0);
      GoldensOfSnoc(m.entries, i);
      assert m.entries[i] in m.entries && m.entries[..i + 1] == m.entries[..i] + [m.entries[i]];
      if !ok {
        CopyingStopped(fs0, fs.files, m, i, i + 1, oldGoldens, refused);
        return;
      }
      newGoldens := newGoldens + {m.entries[i].golden};
    }
    assert m.entries[..|m.entries|] == m.entries;
    CopyingStopped(fs0, fs.files, m, |m.entries|, |m.entries|, oldGoldens, refused);
    ok := true;
  }

  /** However far copying came, the names recorded exist. */
  lemma CopyingStopped(fs: Files, fs': Files, m: Manifest, i: nat, t: nat, before: set<string>, refused: set<string>)
    requires i <= t <= |m.entries| && OnlyTouched(fs, fs', m.regenDir, GoldensOf(m.entries[..t]))
    requires Copied(fs, fs', m.regenDir, m.entries[..i], refused)
    ensures OnlyTouched(fs, fs', m.regenDir, Goldens(m))
    ensures Reflects(fs', m.regenDir, before + GoldensOf(m.entries[..i]) - before)
    ensures GoldensOf(m.entries[..i]) <= Goldens(m)
  {
    assert GoldensOf(m.entries[..t]) <= Goldens(m) && GoldensOf(m.entries[..i]) <= Goldens(m);
    OnlyTouchedMore(fs, fs', m.regenDir, GoldensOf(m.entries[..t]), Goldens(m));
    CopiedReflects(fs, fs', m.regenDir, m.entries[..i], before, refused);
  }

  /** One turn of it. */
  method CopyEntry(fs: FileSystem, m: Manifest, i: nat, ghost refused0: set<string>, ghost fs0: Files)
    returns (ok: bool, ghost refused: set<string>)
    requires Valid(m) && i < |m.entries|
    requires OnlyTouched(fs0, fs.files, m.regenDir, GoldensOf(m.entries[..i]))
    requires Copied(fs0, fs.files, m.regenDir, m.entries[..i], refused0)
    modifies fs
    ensures OnlyTouched(fs0, fs.files, m.regenDir, GoldensOf(m.entries[..i + 1]))
    ensures Copied(fs0, fs.files, m.regenDir, m.entries[..i], refused)
    ensures ok ==> Copied(fs0, fs.files, m.regenDir, m.entries[..i + 1], refused)
    ensures ok ==> EntryCanCopy(fs0, m.regenDir, m.entries[i])
    ensures fs.reliable ==> refused <= refused0 && (ok <==> EntryCanCopy(fs0, m.regenDir, m.entries[i]))
  {
    var e := m.entries[i];
    ghost var before := fs.files;
    GoldenPathsApart(m, e.golden);
    NotYetTouched(fs0, before, m, i);
    StillCanCopy(fs0, before, m, i);
    ghost var untruncated;
    ok, untruncated := CopyIfDifferent(fs, JoinPath(m.regenDir, e.golden), e.generated);
    refused := if untruncated then refused0 + {e.golden} else refused0 - {e.golden};
    TouchOne(fs0, before, fs.files, m.regenDir, GoldensOf(m.entries[..i]), e.golden);
    CopiedStays(fs0, before, fs.files, m, i, refused0, refused);
    GoldensOfSnoc(m.entries, i);
    if ok { CopiedOneMore(fs0, fs.files, m, i, refused); }
  }

  lemma GoldensOfSnoc(entries: seq<Entry>, i: nat)
    requires i < |entries|
    ensures GoldensOf(entries[..i + 1]) == GoldensOf(entries[..i]) + {entries[i].golden}
    ensures GoldensOf(entries[..i + 1]) <= GoldensOf(entries)
  {
    assert entries[..i + 1] == entries[..i] + [entries[i]];
  }

  lemma CopiedReflects(fs: Files, fs': Files, dir: string, entries: seq<Entry>, before: set<string>, refused: set<string>)
    requires Copied(fs, fs', dir, entries, refused)
    ensures Reflects(fs', dir, before + GoldensOf(entries) - before)
  {
    forall e | e in entries
      ensures JoinPath(dir, e.golden) in fs'
    {
      assert CopiedEntry(fs, fs', dir, e, e.golden in refused);
    }
  }

  /** Where the purging loop stands when the files `gone` have been removed. */
  ghost predicate PurgeState(fs: Files, fs': Files, dir: string, gone: set<string>) {
    && SameOutside(fs, fs', Paths(dir, gone))
    && forall n :: n in gone ==> JoinPath(dir, n) !in fs'
  }

  lemma PurgeOne(fs: Files, fs': Files, dir: string, gone: set<string>, n: string)
    requires PurgeState(fs, fs', dir, gone)
    ensures PurgeState(fs, fs' - {JoinPath(dir, n)}, dir, gone + {n})
  {
    assert Paths(dir, gone + {n}) == Paths(dir, gone) + {JoinPath(dir, n)};
  }

  lemma PurgeReflects(fs: Files, fs': Files, dir: string, gone: set<string>, goldens: set<string>)
    requires PurgeState(fs, fs', dir, gone) && Reflects(fs, dir, goldens)
    ensures Reflects(fs', dir, goldens - gone)
  {
    forall n | n in goldens - gone
      ensures JoinPath(dir, n) in fs'
    {
      forall k | k in gone
        ensures JoinPath(dir, k) != JoinPath(dir, n)
      {
        JoinInjective(dir, n, k);
      }
      assert JoinPath(dir, n) !in Paths(dir, gone);
    }
  }

  /** The purging of unused goldens in regen; `gone` is what it has removed. */
  method Purge(fs: FileSystem, dir: string, manifestGoldens: set<string>, goldens: set<string>)
    returns (ok: bool, newGoldens: set<string>, ghost gone: set<string>)
    modifies fs
    ensures newGoldens == goldens - gone
    ensures gone <= DirGoldens(old(fs.files), dir) - manifestGoldens
    ensures ok ==> gone == DirGoldens(old(fs.files), dir) - manifestGoldens
    ensures PurgeState(old(fs.files), fs.files, dir, gone)
    ensures fs.reliable ==> ok
  {
    newGoldens, gone := goldens, {};
    var fault := fs.Fails();
    if fault { return false, newGoldens, gone; }
    ok, newGoldens, gone := RemoveAll(fs, dir, DirGoldens(fs.files, dir) - manifestGoldens, goldens);
  }

  method RemoveAll(fs: FileSystem, dir: string, doomed: set<string>, goldens: set<string>)
    returns (ok: bool, newGoldens: set<string>, ghost gone: set<string>)
    modifies fs
    ensures newGoldens == goldens - gone && gone <= doomed && (ok ==> gone == doomed)
    ensures PurgeState(old(fs.files), fs.files, dir, gone)
    ensures fs.reliable ==> ok
  {
    newGoldens, gone := goldens, {};
    var rest := doomed;
    while rest != {}
      invariant gone + rest == doomed && newGoldens == goldens - gone
      invariant PurgeState(old(fs.files), fs.files, dir, gone)
      decreases rest
    {
      var golden :| golden in rest;
      var fault := fs.Fails();
      if fault { return false, newGoldens, gone; }
      PurgeOne(old(fs.files), fs.files, dir, gone, golden);
      fs.files := fs.files - {JoinPath(dir, golden)};
      newGoldens := newGoldens - {golden};
      rest, gone := rest - {golden}, gone + {golden};
    }
    return true, newGoldens, gone;
  }

  ghost predicate NoNewlines(m: Manifest) { forall e :: e in m.entries ==> '\n' !in e.golden }

  /** Entry `e`'s golden holds what its generated file held before regen; that file is
      still the same, unless it is goldens.txt itself. */
  ghost predicate GoldenHas(before: Files, after: Files, dir: string, e: Entry) {
    && IsRegular(before, e.generated) && JoinPath(dir, e.golden) in after
    && after[JoinPath(dir, e.golden)] == before[e.generated]
    && (e.generated != TxtPath(dir) ==> e.generated in after && after[e.generated] == before[e.generated])
  }

  /** The outcome of a successful regen: the copies are made, no other regular .golden file is
      left, goldens.txt lists the old names and the manifest's without the files purged, and
      nothing else has changed. */
  ghost predicate Regenerated(fs: Files, fs': Files, m: Manifest) {
    CleanedUp(fs, fs', m) && forall e :: e in m.entries ==> GoldenHas(fs, fs', m.regenDir, e)
  }

  ghost predicate CleanedUp(fs: Files, fs': Files, m: Manifest) {
    var dir, doomed := m.regenDir, DirGoldens(fs, m.regenDir) - Goldens(m);
    && Listed(fs, dir).Some?
    && DirGoldens(fs', dir) == Goldens(m)
    && Listed(fs', dir) == Some((Listed(fs, dir).value + Goldens(m)) - doomed)
    && (Listed(fs', dir) == Listed(fs, dir) ==> fs'[TxtPath(dir)] == fs[TxtPath(dir)])
    && SameOutside(fs, fs', Paths(dir, DirGoldens(fs, dir) + Goldens(m)) + {TxtPath(dir)})
  }

  /** What became of goldens.txt: regen stopped before it was read; it is up to date; or its names were written
      over it, each write as far as it went, after a truncation that may have been refused. The errors of the
      deferred Truncate and WriteString are ignored. */
  datatype Rewrite = NotReached | NotNeeded | Rewrote(names: seq<string>, cuts: seq<Cut>, refused: bool)

  ghost predicate InFullOver(r: Rewrite) { r.Rewrote? ==> !r.refused && InFull(r.names, r.cuts) }

  /** The text that a rewrite leaves. */
  ghost predicate Leaves(r: Rewrite, before: string, after: string) {
    match r
    case Rewrote(names, cuts, refused) => |cuts| == |names| && after == Over(Written(names, cuts), if refused then before else "")
    case _ => after == before
  }

  /** The writes of the deferred function, any of which may fall short. */
  method WriteNames(fs: FileSystem, names: seq<string>) returns (text: string, ghost cuts: seq<Cut>)
    ensures |cuts| == |names| && text == Written(names, cuts)
    ensures fs.reliable ==> InFull(names, cuts)
  {
    text, cuts := "", [];
    for i := 0 to |names|
      invariant |cuts| == i && text == Written(names[..i], cuts)
      invariant fs.reliable ==> InFull(names[..i], cuts)
    {
      var chars := fs.WritesOf(|names[i]|);
      var newline := fs.WritesOf(1);
      var cut := Cut(chars, newline == 1);
      text := text + Piece(names[i], cut);
      WrittenSnoc(names[..i], cuts, names[i], cut);
      cuts := cuts + [cut];
      assert names[..i] + [names[i]] == names[..i + 1];
    }
    assert names[..|names|] == names;
  }

  /** The deferred rewrite of goldens.txt. */
  method RewriteGoldensTxt(fs: FileSystem, dir: string, oldGoldens: set<string>, newGoldens: set<string>) returns (ghost rewrite: Rewrite)
    requires Listed(fs.files, dir) == Some(oldGoldens)
    modifies fs
    ensures SameExcept(old(fs.files), fs.files, TxtPath(dir)) && IsRegular(fs.files, TxtPath(dir))
    ensures !rewrite.NotReached? && Leaves(rewrite, old(fs.files)[TxtPath(dir)].bytes, fs.files[TxtPath(dir)].bytes)
    ensures (rewrite.NotNeeded? <==> oldGoldens == newGoldens) && (rewrite.NotNeeded? ==> fs.files == old(fs.files))
    ensures rewrite.Rewrote? ==> Sorted(rewrite.names) && (set n | n in rewrite.names) == newGoldens
    ensures InFullOver(rewrite) && (forall n :: n in newGoldens ==> GoldenName(n)) ==>
              (Listed(fs.files, dir) == Some(newGoldens) <==> forall n :: n in newGoldens ==> '\n' !in n)
    ensures fs.reliable ==> InFullOver(rewrite)
  {
    var txt := TxtPath(dir);
    if oldGoldens == newGoldens {
      rewrite := NotNeeded;
      ListingNames(fs.files[txt].bytes);
      return;
    }
    var names := SetToSortedSlice(newGoldens);
    var fails := fs.Fails();
    var rest := if fails then fs.files[txt].bytes else "";
    var text;
    ghost var cuts;
    text, cuts := WriteNames(fs, names);
    fs.files := fs.files[txt := Regular(Over(text, rest))];
    rewrite := Rewrote(names, cuts, fails);
    if InFullOver(rewrite) && forall n :: n in newGoldens ==> GoldenName(n) {
      WrittenInFull(names, cuts);
      assert Over(Lines(names), "") == Lines(names);
      assert forall n :: n in names <==> n in newGoldens by { assert newGoldens == set n | n in names; }
      ListingOfLines(names);
    }
  }

  lemma CopyKeepsTxt(fs: Files, fs1: Files, m: Manifest)
    requires Valid(m) && OnlyTouched(fs, fs1, m.regenDir, Goldens(m))
    ensures Listed(fs1, m.regenDir) == Listed(fs, m.regenDir)
    ensures TxtPath(m.regenDir) in fs ==> fs1[TxtPath(m.regenDir)] == fs[TxtPath(m.regenDir)]
  {
    PathsApart(m, m.regenDir, Goldens(m));
  }

  lemma PurgeKeepsTxt(fs: Files, fs': Files, m: Manifest, gone: set<string>)
    requires Valid(m) && PurgeState(fs, fs', m.regenDir, gone) && gone <= DirGoldens(fs, m.regenDir)
    ensures Listed(fs', m.regenDir) == Listed(fs, m.regenDir)
    ensures TxtPath(m.regenDir) in fs ==> TxtPath(m.regenDir) in fs' && fs'[TxtPath(m.regenDir)] == fs[TxtPath(m.regenDir)]
    ensures forall e :: e in m.entries && e.generated in fs ==> e.generated in fs' && fs'[e.generated] == fs[e.generated]
  {
    PathsApart(m, m.regenDir, gone);
  }

  /** Copying adds exactly the manifest's goldens to the regular .golden files. */
  lemma CopyDirGoldens(fs: Files, fs1: Files, m: Manifest, refused: set<string>)
    requires Valid(m) && OnlyTouched(fs, fs1, m.regenDir, Goldens(m)) && Copied(fs, fs1, m.regenDir, m.entries, refused)
    ensures DirGoldens(fs1, m.regenDir) == DirGoldens(fs, m.regenDir) + Goldens(m)
  {
    var dir := m.regenDir;
    PathsApart(m, dir, Goldens(m));
    forall n
      ensures StrayGolden(fs1, dir, n) <==> StrayGolden(fs, dir, n) || n in Goldens(m)
    {
      if n in Goldens(m) {
        var e :| e in m.entries && e.golden == n;
        assert CopiedEntry(fs, fs1, dir, e, n in refused);
      } else {
        assert JoinPath(dir, n) !in Paths(dir, Goldens(m));
      }
    }
  }

  lemma PurgeDirGoldens(fs: Files, fs': Files, dir: string, gone: set<string>)
    requires PurgeState(fs, fs', dir, gone) && gone <= DirGoldens(fs, dir)
    ensures DirGoldens(fs', dir) == DirGoldens(fs, dir) - gone
  {
    forall n
      ensures StrayGolden(fs', dir, n) <==> StrayGolden(fs, dir, n) && n !in gone
    {
      if n !in gone {
        forall k | k in gone
          ensures JoinPath(dir, k) != JoinPath(dir, n)
        {
          JoinInjective(dir, n, k);
        }
        assert JoinPath(dir, n) !in Paths(dir, gone);
      }
    }
  }

  lemma TxtDirGoldens(fs: Files, fs': Files, dir: string)
    requires SameExcept(fs, fs', TxtPath(dir))
    ensures DirGoldens(fs', dir) == DirGoldens(fs, dir)
  {
    GoldensTxtExt();
    forall n
      ensures StrayGolden(fs', dir, n) <==> StrayGolden(fs, dir, n)
    {
      JoinInjective(dir, n, GOLDENS_TXT);
    }
  }

  /** A copy survives the purge, and the rewrite of goldens.txt too unless its source is goldens.txt. */
  lemma CopySurvives(fs1: Files, fs2: Files, fs3: Files, m: Manifest, gone: set<string>, e: Entry)
    requires Valid(m) && e in m.entries && IsRegular(fs1, e.generated) && JoinPath(m.regenDir, e.golden) in fs1
    requires PurgeState(fs1, fs2, m.regenDir, gone) && gone <= DirGoldens(fs1, m.regenDir) - Goldens(m)
    requires SameExcept(fs2, fs3, TxtPath(m.regenDir))
    ensures var g := JoinPath(m.regenDir, e.golden);
            && g in fs3 && fs3[g] == fs1[g]
            && (e.generated != TxtPath(m.regenDir) ==> e.generated in fs3 && fs3[e.generated] == fs1[e.generated])
  {
    var dir := m.regenDir;
    PurgeKeepsTxt(fs1, fs2, m, gone);
    GoldenPathsApart(m, e.golden);
    assert e.golden in Goldens(m);
    PathsApart(m, dir, gone);
  }

  /** A golden that could not be truncated and was longer than its generated file: it keeps its end. */
  ghost predicate Stale(fs: Files, dir: string, e: Entry, refused: set<string>) {
    e.golden in refused && IsRegular(fs, JoinPath(dir, e.golden)) && IsRegular(fs, e.generated) &&
    |fs[JoinPath(dir, e.golden)].bytes| > |fs[e.generated].bytes|
  }

  /** A golden is right after all three stages exactly if it is not stale. */
  lemma GoldenRightIff(fs: Files, fs1: Files, fs2: Files, fs3: Files, m: Manifest, gone: set<string>, refused: set<string>, e: Entry)
    requires Valid(m) && e in m.entries
    requires OnlyTouched(fs, fs1, m.regenDir, Goldens(m)) && Copied(fs, fs1, m.regenDir, m.entries, refused)
    requires PurgeState(fs1, fs2, m.regenDir, gone) && gone <= DirGoldens(fs1, m.regenDir) - Goldens(m)
    requires SameExcept(fs2, fs3, TxtPath(m.regenDir))
    ensures GoldenHas(fs, fs3, m.regenDir, e) <==> !Stale(fs, m.regenDir, e, refused)
  {
    var dir, g := m.regenDir, JoinPath(m.regenDir, e.golden);
    PathsApart(m, dir, Goldens(m));
    assert CopiedEntry(fs, fs1, dir, e, e.golden in refused);
    assert e.generated in fs && fs1[e.generated] == fs[e.generated];
    CopySurvives(fs1, fs2, fs3, m, gone, e);
    var bytes, kept := fs[e.generated].bytes, Kept(fs, g, e.golden in refused);
    assert Over(bytes, kept) == bytes <==> |kept| <= |bytes|;
  }

  lemma StagesSameOutside(fs: Files, fs1: Files, fs2: Files, fs3: Files, dir: string, a: set<string>, b: set<string>, c: set<string>)
    requires SameOutside(fs, fs1, Paths(dir, a)) && SameOutside(fs1, fs2, Paths(dir, b)) && SameExcept(fs2, fs3, TxtPath(dir))
    requires a <= c && b <= c
    ensures SameOutside(fs, fs3, Paths(dir, c) + {TxtPath(dir)})
  {
    assert Paths(dir, a) <= Paths(dir, c) && Paths(dir, b) <= Paths(dir, c);
  }

  /** The three stages of a successful regen. */
  ghost predicate Stages(fs: Files, fs1: Files, fs2: Files, fs3: Files, m: Manifest, gone: set<string>, refused: set<string>) {
    && OnlyTouched(fs, fs1, m.regenDir, Goldens(m)) && Copied(fs, fs1, m.regenDir, m.entries, refused)
    && PurgeState(fs1, fs2, m.regenDir, gone) && gone == DirGoldens(fs1, m.regenDir) - Goldens(m)
    && SameExcept(fs2, fs3, TxtPath(m.regenDir)) && TxtPath(m.regenDir) in fs3
    && Listed(fs, m.regenDir).Some? && TxtPath(m.regenDir) in fs
    && Listed(fs3, m.regenDir) == Some((Listed(fs, m.regenDir).value + Goldens(m)) - gone)
    && (Listed(fs3, m.regenDir) == Listed(fs, m.regenDir) ==> fs3 == fs2)
  }

  lemma StagesCleanUp(fs: Files, fs1: Files, fs2: Files, fs3: Files, m: Manifest, gone: set<string>, refused: set<string>)
    requires Valid(m) && Stages(fs, fs1, fs2, fs3, m, gone, refused)
    ensures CleanedUp(fs, fs3, m)
  {
    var dir, G := m.regenDir, Goldens(m);
    CopyKeepsTxt(fs, fs1, m);
    PurgeKeepsTxt(fs1, fs2, m, gone);
    assert DirGoldens(fs3, dir) == G && gone == DirGoldens(fs, dir) - G by {
      CopyDirGoldens(fs, fs1, m, refused);
      PurgeDirGoldens(fs1, fs2, dir, gone);
      TxtDirGoldens(fs2, fs3, dir);
    }
    StagesSameOutside(fs, fs1, fs2, fs3, dir, G, gone, DirGoldens(fs, dir) + G);
  }

  /** Puts the three stages of a successful regen together. */
  lemma StagesRegenerate(fs: Files, fs1: Files, fs2: Files, fs3: Files, m: Manifest, gone: set<string>, refused: set<string>)
    requires Valid(m) && Stages(fs, fs1, fs2, fs3, m, gone, refused)
    ensures Regenerated(fs, fs3, m) <==> forall e :: e in m.entries ==> !Stale(fs, m.regenDir, e, refused)
  {
    StagesCleanUp(fs, fs1, fs2, fs3, m, gone, refused);
    forall e | e in m.entries
      ensures GoldenHas(fs, fs3, m.regenDir, e) <==> !Stale(fs, m.regenDir, e, refused)
    {
      GoldenRightIff(fs, fs1, fs2, fs3, m, gone, refused, e);
    }
  }

  /** Whatever regen has done when it stops, the names it goes on to write exist. */
  lemma StaysSafe(fs: Files, fs1: Files, fs2: Files, fs3: Files, dir: string, before: set<string>, names: set<string>, gone: set<string>)
    requires fs.Keys <= fs1.Keys && Reflects(fs, dir, before) && Reflects(fs1, dir, names + gone - before)
    requires PurgeState(fs1, fs2, dir, gone) && names !! gone
    requires SameExcept(fs2, fs3, TxtPath(dir)) && TxtPath(dir) in fs3
    ensures Reflects(fs3, dir, names)
  {
    assert Reflects(fs1, dir, names + gone);
    PurgeReflects(fs1, fs2, dir, gone, names + gone);
    assert names + gone - gone == names;
  }

  /** What regen needs: a goldens.txt that can be read, and copies that can be made. */
  ghost predicate CanRegen(fs: Files, m: Manifest) {
    Listed(fs, m.regenDir).Some? && AllCanCopy(fs, m.regenDir, m.entries)
  }

  /** Only names without newlines can be listed. */
  lemma RegeneratedHasNoNewlines(fs: Files, fs': Files, m: Manifest)
    requires Regenerated(fs, fs', m)
    ensures NoNewlines(m)
  {
    ListingNames(fs'[TxtPath(m.regenDir)].bytes);
    forall e | e in m.entries
      ensures '\n' !in e.golden
    {
      assert e.golden in Goldens(m) && e.golden in Listed(fs', m.regenDir).value;
    }
  }

  /** regen. However it stops, the names it has recorded exist, if those listed before did; so goldens.txt, once
      it is written in full, names only existing files, if no golden's name holds a newline. If it reports
      success and goldens.txt was written in full, the directory is regenerated exactly when no golden's name
      holds a newline and no golden kept its end. On a reliable file system it succeeds exactly when it can. */
  method Regen(fs: FileSystem, m: Manifest) returns (ok: bool, ghost refused: set<string>, ghost rewrite: Rewrite, ghost recorded: set<string>)
    requires Valid(m)
    modifies fs
    ensures rewrite.NotReached? ==> !ok && fs.files == old(fs.files)
    ensures !rewrite.NotReached? ==>
              var txt := TxtPath(m.regenDir);
              && IsRegular(old(fs.files), txt) && IsRegular(fs.files, txt)
              && Leaves(rewrite, old(fs.files)[txt].bytes, fs.files[txt].bytes)
              && (rewrite.Rewrote? ==> Sorted(rewrite.names) && (set n | n in rewrite.names) == recorded)
              && (forall n :: n in recorded ==> GoldenName(n) && (NoNewlines(m) ==> '\n' !in n))
              && (ListedExist(old(fs.files), m.regenDir) ==> Reflects(fs.files, m.regenDir, recorded))
    ensures rewrite.Rewrote? && NoNewlines(m) && ListedExist(old(fs.files), m.regenDir) ==> Recorded(fs.files, m.regenDir, rewrite.names)
    ensures NoNewlines(m) && InFullOver(rewrite) && ListedExist(old(fs.files), m.regenDir) ==> ListedExist(fs.files, m.regenDir)
    ensures ok && InFullOver(rewrite) ==>
              (Regenerated(old(fs.files), fs.files, m) <==>
               NoNewlines(m) && forall e :: e in m.entries ==> !Stale(old(fs.files), m.regenDir, e, refused))
    ensures ok ==> CanRegen(old(fs.files), m)
    ensures fs.reliable ==> (ok <==> CanRegen(old(fs.files), m)) && refused == {} && InFullOver(rewrite)
    ensures fs.reliable && CanRegen(old(fs.files), m) ==> (Regenerated(old(fs.files), fs.files, m) <==> NoNewlines(m))
  {
    var dir, txt := m.regenDir, TxtPath(m.regenDir);
    ok, refused, rewrite, recorded := false, {}, NotReached, {};
    var fault := fs.Fails();
    if fault || txt !in fs.files || fs.files[txt] == Other { return; }
    var listed := ReadGoldensTxt(fs.files[txt].bytes);
    fault := fs.Fails();
    if fault || listed.None? { return; }
    var oldGoldens := listed.value;
    ghost var fs0 := fs.files;

    var newGoldens;
    ghost var fs1, gone;
    ok, newGoldens, refused, fs1, gone := CopyAndPurge(fs, m, oldGoldens);
    ghost var fs2 := fs.files;
    rewrite := RewriteGoldensTxt(fs, dir, oldGoldens, newGoldens);
    recorded := newGoldens;
    RecordedAfter(fs0, fs1, fs2, fs.files, m, oldGoldens, newGoldens, gone);
    if rewrite.Rewrote? && NoNewlines(m) && ListedExist(fs0, dir) {
      NamesRecorded(fs.files, dir, rewrite.names, newGoldens);
    }
    if ok && InFullOver(rewrite) {
      Concludes(fs0, fs1, fs2, fs.files, m, newGoldens, gone, refused);
    }
  }

  lemma NamesRecorded(fs: Files, dir: string, names: seq<string>, recorded: set<string>)
    requires (set n | n in names) == recorded && Reflects(fs, dir, recorded)
    requires forall n :: n in recorded ==> GoldenName(n) && '\n' !in n
    ensures Recorded(fs, dir, names)
  {
    forall n | n in names
      ensures n in recorded
    {
      assert n in (set k | k in names);
    }
  }

  /** A successful regen that wrote goldens.txt in full. */
  lemma Concludes(fs: Files, fs1: Files, fs2: Files, fs3: Files, m: Manifest, recorded: set<string>, gone: set<string>, refused: set<string>)
    requires Valid(m) && Listed(fs, m.regenDir).Some? && TxtPath(m.regenDir) in fs
    requires OnlyTouched(fs, fs1, m.regenDir, Goldens(m)) && Copied(fs, fs1, m.regenDir, m.entries, refused)
    requires PurgeState(fs1, fs2, m.regenDir, gone) && gone == DirGoldens(fs1, m.regenDir) - Goldens(m)
    requires recorded == Listed(fs, m.regenDir).value + Goldens(m) - gone
    requires forall n :: n in recorded ==> NoNewlines(m) ==> '\n' !in n
    requires SameExcept(fs2, fs3, TxtPath(m.regenDir)) && TxtPath(m.regenDir) in fs3
    requires Listed(fs3, m.regenDir) == Some(recorded) <==> forall n :: n in recorded ==> '\n' !in n
    requires Listed(fs, m.regenDir).value == recorded ==> fs3 == fs2
    ensures Regenerated(fs, fs3, m) <==> NoNewlines(m) && forall e :: e in m.entries ==> !Stale(fs, m.regenDir, e, refused)
  {
    if NoNewlines(m) {
      StagesRegenerate(fs, fs1, fs2, fs3, m, gone, refused);
    } else if Regenerated(fs, fs3, m) {
      RegeneratedHasNoNewlines(fs, fs3, m);
    }
  }

  /** What copying and purging have done, however far they came. */
  ghost predicate Progress(fs: Files, fs1: Files, fs2: Files, m: Manifest, before: set<string>, recorded: set<string>, gone: set<string>) {
    && OnlyTouched(fs, fs1, m.regenDir, Goldens(m))
    && PurgeState(fs1, fs2, m.regenDir, gone) && gone <= DirGoldens(fs1, m.regenDir)
    && recorded !! gone && recorded <= before + Goldens(m)
    && Reflects(fs1, m.regenDir, recorded + gone - before)
    && Listed(fs2, m.regenDir) == Listed(fs, m.regenDir)
    && (TxtPath(m.regenDir) in fs ==> TxtPath(m.regenDir) in fs2 && fs2[TxtPath(m.regenDir)] == fs[TxtPath(m.regenDir)])
  }

  method CopyAndPurge(fs: FileSystem, m: Manifest, oldGoldens: set<string>)
    returns (ok: bool, newGoldens: set<string>, ghost refused: set<string>, ghost fs1: Files, ghost gone: set<string>)
    requires Valid(m)
    modifies fs
    ensures Progress(old(fs.files), fs1, fs.files, m, oldGoldens, newGoldens, gone)
    ensures ok ==> Copied(old(fs.files), fs1, m.regenDir, m.entries, refused) && gone == DirGoldens(fs1, m.regenDir) - Goldens(m)
                   && newGoldens == oldGoldens + Goldens(m) - gone
    ensures ok ==> AllCanCopy(old(fs.files), m.regenDir, m.entries)
    ensures fs.reliable ==> refused == {} && (ok <==> AllCanCopy(old(fs.files), m.regenDir, m.entries))
  {
    ok, newGoldens, refused := CopyAll(fs, m, oldGoldens);
    fs1, gone := fs.files, {};
    CopyKeepsTxt(old(fs.files), fs1, m);
    ghost var copied := newGoldens;
    if ok {
      ok, newGoldens, gone := Purge(fs, m.regenDir, Goldens(m), newGoldens);
    }
    PurgeKeepsTxt(fs1, fs.files, m, gone);
    ReflectsSome(fs1, m.regenDir, oldGoldens, copied, newGoldens, gone);
  }

  lemma ReflectsSome(fs: Files, dir: string, before: set<string>, copied: set<string>, recorded: set<string>, gone: set<string>)
    requires Reflects(fs, dir, copied - before) && recorded == copied - gone && gone <= DirGoldens(fs, dir)
    ensures Reflects(fs, dir, recorded + gone - before)
  {
  }

  /** Whatever became of goldens.txt, what was recorded is golden names, and they exist. */
  lemma RecordedAfter(fs: Files, fs1: Files, fs2: Files, fs3: Files, m: Manifest, before: set<string>, recorded: set<string>, gone: set<string>)
    requires Valid(m) && Listed(fs, m.regenDir) == Some(before) && Progress(fs, fs1, fs2, m, before, recorded, gone)
    requires SameExcept(fs2, fs3, TxtPath(m.regenDir)) && TxtPath(m.regenDir) in fs3
    ensures forall n :: n in recorded ==> GoldenName(n) && (NoNewlines(m) ==> '\n' !in n)
    ensures ListedExist(fs, m.regenDir) ==> Reflects(fs3, m.regenDir, recorded)
  {
    ListingNames(fs[TxtPath(m.regenDir)].bytes);
    if ListedExist(fs, m.regenDir) { StaysSafe(fs, fs1, fs2, fs3, m.regenDir, before, recorded, gone); }
  }

  // --------------------------------------- a rewrite of goldens.txt that does not go through

  /** The same files with another goldens.txt. */
  function WithTxt(fs: Files, dir: string, text: string): Files { fs[TxtPath(dir) := Regular(text)] }

  lemma GoldenIsNotTxt(dir: string, n: string)
    requires GoldenName(n)
    ensures JoinPath(dir, n) != TxtPath(dir)
  {
    GoldensTxtExt();
    ExtOfJoin(dir, n);
    ExtOfJoin(dir, GOLDENS_TXT);
  }

  lemma ListedExistIff(fs: Files, dir: string, text: string)
    ensures ListedExist(WithTxt(fs, dir, text), dir) <==>
            (Listing(text).Some? ==> forall n :: n in Listing(text).value ==> JoinPath(dir, n) in fs)
  {
    if Listing(text).Some? {
      ListingNames(text);
      forall n | n in Listing(text).value { GoldenIsNotTxt(dir, n); }
    }
  }

  /** Names as regen records them, all of files that exist. */
  ghost predicate Recorded(fs: Files, dir: string, names: seq<string>) {
    forall n :: n in names ==> GoldenName(n) && '\n' !in n && JoinPath(dir, n) in fs
  }

  /** No name has a beginning that is the name of a golden that does not exist. */
  ghost predicate NoMissingPrefix(fs: Files, dir: string, names: seq<string>) {
    forall n, j :: n in names && 0 <= j < |n| && GoldenName(DropCR(n[..j])) ==> JoinPath(dir, DropCR(n[..j])) in fs
  }

  /** A write that stops somewhere, as on a full disk, leaves recorded names and the beginning of one more. */
  lemma CutListing(fs: Files, dir: string, names: seq<string>, i: nat, j: nat)
    requires Recorded(fs, dir, names) && i < |names| && j <= |names[i]|
    ensures var text, p := Lines(names[..i]) + names[i][..j], DropCR(names[i][..j]);
            ListedExist(WithTxt(fs, dir, text), dir) <==> (GoldenName(p) ==> JoinPath(dir, p) in fs)
  {
    var text, p := Lines(names[..i]) + names[i][..j], DropCR(names[i][..j]);
    ListingOfCut(names, i, j);
    ListedExistIff(fs, dir, text);
    assert forall n :: n in names[..i] ==> n in names;
    if GoldenName(p) {
      GoldenEnd(p);
      assert p in ScanLines(text);
      assert Listing(text).Some? && p in Listing(text).value;
    }
  }

  lemma CutSafe(fs: Files, dir: string, names: seq<string>, k: nat)
    requires Recorded(fs, dir, names) && NoMissingPrefix(fs, dir, names) && k <= |Lines(names)|
    ensures ListedExist(WithTxt(fs, dir, Lines(names)[..k]), dir)
  {
    var i, j := CutIsLines(names, k);
    if i == |names| {
      assert names[..i] == names && Lines(names) + "" == Lines(names);
      ScanOfLines(names);
      ListedExistIff(fs, dir, Lines(names)[..k]);
    } else {
      assert names[i] in names;
      CutListing(fs, dir, names, i, j);
      if j == |names[i]| {
        GoldenEnd(names[i]);
        assert names[i][..j] == names[i];
      }
    }
  }

  ghost predicate SafeAt(fs: Files, dir: string, names: seq<string>, k: nat) {
    k <= |Lines(names)| ==> ListedExist(WithTxt(fs, dir, Lines(names)[..k]), dir)
  }

  /** When a rewrite that stops anywhere is safe: exactly if no recorded name begins with the name of a golden
      that does not exist. */
  lemma CutSafeIff(fs: Files, dir: string, names: seq<string>)
    requires Recorded(fs, dir, names)
    ensures NoMissingPrefix(fs, dir, names) <==> forall k :: SafeAt(fs, dir, names, k)
  {
    if NoMissingPrefix(fs, dir, names) {
      forall k: nat | k <= |Lines(names)|
        ensures SafeAt(fs, dir, names, k)
      {
        CutSafe(fs, dir, names, k);
      }
    }
    if forall k :: SafeAt(fs, dir, names, k) {
      forall n, j | n in names && 0 <= j < |n| && GoldenName(DropCR(n[..j]))
        ensures JoinPath(dir, DropCR(n[..j])) in fs
      {
        PrefixExists(fs, dir, names, n, j);
      }
    }
  }

  lemma PrefixExists(fs: Files, dir: string, names: seq<string>, n: string, j: nat)
    requires Recorded(fs, dir, names) && (forall k :: SafeAt(fs, dir, names, k))
    requires n in names && j < |n| && GoldenName(DropCR(n[..j]))
    ensures JoinPath(dir, DropCR(n[..j])) in fs
  {
    var i :| 0 <= i < |names| && names[i] == n;
    var k := LinesCutAt(names, i, j);
    assert SafeAt(fs, dir, names, k);
    CutListing(fs, dir, names, i, j);
  }

  /** The line that beginnings of the names run together to is not the name of a golden that does not exist. */
  ghost predicate MixtureExists(fs: Files, dir: string, names: seq<string>, cuts: seq<Cut>) {
    |cuts| == |names| && NoBreaks(cuts) && GoldenName(DropCR(Written(names, cuts))) ==>
      JoinPath(dir, DropCR(Written(names, cuts))) in fs
  }

  ghost predicate SafeWith(fs: Files, dir: string, names: seq<string>, cuts: seq<Cut>) {
    |cuts| == |names| ==> ListedExist(WithTxt(fs, dir, Written(names, cuts)), dir)
  }

  /** When a rewrite of which any write may fall short is safe: exactly if no line that beginnings of the names
      can run together to is the name of a golden that does not exist. */
  lemma GapsSafeIff(fs: Files, dir: string, names: seq<string>)
    requires Recorded(fs, dir, names)
    ensures (forall cuts :: MixtureExists(fs, dir, names, cuts)) <==> forall cuts :: SafeWith(fs, dir, names, cuts)
  {
    if forall cuts :: MixtureExists(fs, dir, names, cuts) {
      forall cuts
        ensures SafeWith(fs, dir, names, cuts)
      {
        if |cuts| == |names| { GapsSafe(fs, dir, names, cuts); }
      }
    }
    if forall cuts :: SafeWith(fs, dir, names, cuts) {
      forall cuts
        ensures MixtureExists(fs, dir, names, cuts)
      {
        assert SafeWith(fs, dir, names, cuts);
        if |cuts| == |names| && NoBreaks(cuts) && GoldenName(DropCR(Written(names, cuts))) { MixtureListed(fs, dir, names, cuts); }
      }
    }
  }

  lemma MixtureListed(fs: Files, dir: string, names: seq<string>, cuts: seq<Cut>)
    requires Recorded(fs, dir, names) && |cuts| == |names| && NoBreaks(cuts) && GoldenName(DropCR(Written(names, cuts)))
    requires ListedExist(WithTxt(fs, dir, Written(names, cuts)), dir)
    ensures JoinPath(dir, DropCR(Written(names, cuts))) in fs
  {
    var text := Written(names, cuts);
    WrittenWithoutBreaks(names, cuts);
    ScanUnfinished(text);
    GoldenEnd(DropCR(text));
    ListedExistIff(fs, dir, text);
    assert DropCR(text) in ScanLines(text);
  }

  lemma GapsSafe(fs: Files, dir: string, names: seq<string>, cuts: seq<Cut>)
    requires Recorded(fs, dir, names) && (forall c :: MixtureExists(fs, dir, names, c)) && |cuts| == |names|
    ensures ListedExist(WithTxt(fs, dir, Written(names, cuts)), dir)
  {
    var text := Written(names, cuts);
    ListedExistIff(fs, dir, text);
    forall l | l in ScanLines(text) && GoldenName(l)
      ensures JoinPath(dir, l) in fs
    {
      var g := ScanInSplit(text, l);
      var flat := LineIsRunTogether(names, cuts, g);
      assert MixtureExists(fs, dir, names, flat);
    }
  }

  /** When a rewrite in full over a goldens.txt that could not be truncated is safe: exactly if what its old
      end lists exists too, or cannot be read. */
  lemma UntruncatedSafeIff(fs: Files, dir: string, names: seq<string>, before: string)
    requires Recorded(fs, dir, names)
    ensures var tail := if |before| > |Lines(names)| then before[|Lines(names)|..] else "";
            ListedExist(WithTxt(fs, dir, Over(Lines(names), before)), dir) <==>
            (Listing(tail).Some? ==> forall n :: n in Listing(tail).value ==> JoinPath(dir, n) in fs)
  {
    var tail := if |before| > |Lines(names)| then before[|Lines(names)|..] else "";
    var text := Lines(names) + tail;
    ScanAfterLines(names, tail);
    ListedExistIff(fs, dir, text);
    assert forall l :: l in ScanLines(text) <==> l in names || l in ScanLines(tail);
    assert Listing(text).Some? <==> Listing(tail).Some?;
  }

  // ------------------------------------------------------------------- test

  ghost predicate EntryMatches(fs: Files, dir: string, e: Entry) {
    var g := JoinPath(dir, e.golden);
    IsRegular(fs, g) && IsRegular(fs, e.generated) && fs[g] == fs[e.generated]
  }

  /** When the test should pass: goldens.txt lists exactly the manifest's goldens, and each is
      byte for byte its generated file. */
  ghost predicate Matches(fs: Files, dir: string, m: Manifest) {
    Listed(fs, dir) == Some(Goldens(m)) && forall e :: e in m.entries ==> EntryMatches(fs, dir, e)
  }

  /** The comparison of one golden with its generated file. */
  method TestEntry(fs: Files, dir: string, e: Entry) returns (pass: bool)
    ensures pass <==> EntryMatches(fs, dir, e)
  {
    var g := JoinPath(dir, e.golden);
    if g !in fs || fs[g] == Other { return false; }
    if e.generated !in fs || fs[e.generated] == Other { return false; }
    var goldenBytes, generatedBytes := fs[g].bytes, fs[e.generated].bytes;
    if |goldenBytes| != 0 && |generatedBytes| == 0 { return false; }
    SplitInjective(goldenBytes, generatedBytes, '\n');
    return Split(goldenBytes, '\n') == Split(generatedBytes, '\n');
  }

  ghost predicate AllGood(fs: Files, dir: string, listed: set<string>, entries: seq<Entry>) {
    forall e :: e in entries ==> e.golden in listed && EntryMatches(fs, dir, e)
  }

  lemma TestVerdict(fs: Files, dir: string, m: Manifest, listed: set<string>)
    requires Listed(fs, dir) == Some(listed)
    ensures Matches(fs, dir, m) <==> AllGood(fs, dir, listed, m.entries) && listed - Goldens(m) == {}
  {
    if AllGood(fs, dir, listed, m.entries) && listed - Goldens(m) == {} {
      assert listed == (listed - Goldens(m)) + listed * Goldens(m);
      assert listed == Goldens(m);
    }
    if Matches(fs, dir, m) {
      assert forall e :: e in m.entries ==> e.golden in Goldens(m);
    }
  }

  /** test: None when goldens.txt cannot be read. */
  method Test(fs: Files, m: Manifest) returns (passed: Option<bool>)
    requires Valid(m)
    ensures passed.None? <==> Listed(fs, m.testDir).None?
    ensures passed.Some? ==> (passed.value <==> Matches(fs, m.testDir, m))
  {
    var dir, txt := m.testDir, TxtPath(m.testDir);
    if txt !in fs || fs[txt] == Other { return None; }
    var listed := ReadGoldensTxt(fs[txt].bytes);
    if listed.None? { return None; }
    var remaining, failed := listed.value, false;
    for i := 0 to |m.entries|
      invariant remaining == listed.value - GoldensOf(m.entries[..i])
      invariant failed <==> !AllGood(fs, dir, listed.value, m.entries[..i])
    {
      var e := m.entries[i];
      assert m.entries[..i + 1] == m.entries[..i] + [e];
      assert e.golden !in GoldensOf(m.entries[..i]);
      if e.golden !in remaining {
        failed := true;
      } else {
        remaining := remaining - {e.golden};
        var pass := TestEntry(fs, dir, e);
        if !pass { failed := true; }
      }
    }
    assert m.entries[..|m.entries|] == m.entries;
    TestVerdict(fs, dir, m, listed.value);
    if remaining != {} { failed := true; }
    return Some(!failed);
  }

  // -------------------------------------------------------------- round trip

  /** regen and then test in the same directory. On a reliable file system, if regen can do its work and no
      golden's name holds a newline, the test passes exactly under the condition of `RegenThenTest`. */
  method RegenAndTest(fs: FileSystem, m: Manifest) returns (passed: Option<bool>)
    requires Valid(m) && m.testDir == m.regenDir
    modifies fs
    ensures fs.reliable && CanRegen(old(fs.files), m) && NoNewlines(m) ==>
              passed.Some? && (passed.value <==> UpToDate(old(fs.files), m))
  {
    var ok;
    ghost var refused, rewrite, recorded;
    ok, refused, rewrite, recorded := Regen(fs, m);
    if fs.reliable && CanRegen(old(fs.files), m) && NoNewlines(m) { RegenThenTest(old(fs.files), fs.files, m); }
    passed := Test(fs.files, m);
  }

  /** Every name that goldens.txt lists and the manifest does not have is a regular file, and goldens.txt, if
      the manifest copies it, lists just the manifest's goldens. */
  ghost predicate UpToDate(fs: Files, m: Manifest)
    requires Listed(fs, m.regenDir).Some?
  {
    && (forall n :: n in Listed(fs, m.regenDir).value - Goldens(m) ==> IsRegular(fs, JoinPath(m.regenDir, n)))
    && ((exists e :: e in m.entries && e.generated == TxtPath(m.regenDir)) ==> Listed(fs, m.regenDir).value == Goldens(m))
  }

  /** After a successful regen the test passes exactly when two things were so before it:
      every name that goldens.txt listed and the manifest does not was a regular file (a missing
      or irregular one stays listed), and goldens.txt, if the manifest copies it, was already
      up to date (otherwise regen rewrites it after copying it). */
  lemma RegenThenTest(fs: Files, fs': Files, m: Manifest)
    requires Valid(m) && Regenerated(fs, fs', m)
    ensures Matches(fs', m.regenDir, m) <==> UpToDate(fs, m)
  {
    var dir, G, was := m.regenDir, Goldens(m), Listed(fs, m.regenDir).value;
    ListingNames(fs[TxtPath(dir)].bytes);
    assert Listed(fs', dir) == Some(G) <==> (forall n :: n in was - G ==> IsRegular(fs, JoinPath(dir, n))) by {
      if Listed(fs', dir) == Some(G) {
        forall n | n in was - G
          ensures StrayGolden(fs, dir, n)
        {
          assert n in DirGoldens(fs, dir) - G;
        }
      }
      if forall n :: n in was - G ==> IsRegular(fs, JoinPath(dir, n)) {
        assert (was + G) - (DirGoldens(fs, dir) - G) == G;
      }
    }
  }
}
