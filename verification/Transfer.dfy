/** tools/bootserver/boot.go: the order in which files go to the device, and the retried transfer. */
module TransferOrder {
  import opened Basics
  import opened Text

  const CMDLINE := "<<netboot>>cmdline"
  const FVM := "<<image>>sparse.fvm"
  const BOOTLOADER := "<<image>>bootloader.img"
  const FIRMWARE := "<<image>>firmware_"
  const EFI := "<<image>>efi.img"
  const KERNC := "<<image>>kernc.img"
  const ZIRCON_A := "<<image>>zircona.img"
  const ZIRCON_B := "<<image>>zirconb.img"
  const ZIRCON_R := "<<image>>zirconr.img"
  const VBMETA_A := "<<image>>vbmetaa.img"
  const VBMETA_B := "<<image>>vbmetab.img"
  const VBMETA_R := "<<image>>vbmetar.img"
  const AUTHORIZED_KEYS := "<<image>>authorized_keys"
  const KERNEL := "<<netboot>>kernel.bin"

  const ORDER: seq<string> := [CMDLINE, FVM, BOOTLOADER, FIRMWARE, EFI, KERNC, ZIRCON_A, ZIRCON_B, ZIRCON_R,
                               VBMETA_A, VBMETA_B, VBMETA_R, AUTHORIZED_KEYS, KERNEL]

  predicate IsFirmware(name: string) { StartsWith(name, FIRMWARE) }

  /** Position of `name` in ORDER from `i` on, counted from 1. */
  function IndexFrom(name: string, i: nat): Option<nat>
    requires i <= |ORDER|
    decreases |ORDER| - i
  {
    if i == |ORDER| then None else if ORDER[i] == name then Some(i + 1) else IndexFrom(name, i + 1)
  }

  /** transferOrder */
  function OrderOf(name: string): Option<nat> {
    IndexFrom(if IsFirmware(name) then FIRMWARE else name, 0)
  }

  /** netsvcFile; the index comes from transferOrder. */
  datatype File = File(name: string, index: nat)

  ghost predicate Recognised(f: File) { OrderOf(f.name) == Some(f.index) }

  /** The comparison given to sort.Slice. */
  predicate Less(a: File, b: File) {
    if a.index == b.index then Le(a.name, b.name) && a.name != b.name else a.index < b.index
  }

  ghost predicate InOrder(files: seq<File>) {
    forall i, j :: 0 <= i < j < |files| ==> !Less(files[j], files[i])
  }

  lemma {:induction false} IndexFromIs(name: string, i: nat)
    requires i <= |ORDER|
    ensures var r := IndexFrom(name, i); r.Some? ==> i < r.value <= |ORDER| && ORDER[r.value - 1] == name
    decreases |ORDER| - i
  {
    if i < |ORDER| && ORDER[i] != name { IndexFromIs(name, i + 1); }
  }

  /** No name stands in the order twice. */
  lemma OrderIsDistinct(i: nat, j: nat)
    requires i < j < |ORDER|
    ensures ORDER[i] != ORDER[j]
  {
    if |ORDER[i]| == |ORDER[j]| {
      assert CMDLINE[2] == 'n' && FIRMWARE[2] == 'i' && KERNC[2] == 'i' && FIRMWARE[9] == 'f' && KERNC[9] == 'k';
      assert ZIRCON_A[9] == 'z' && ZIRCON_B[9] == 'z' && ZIRCON_R[9] == 'z';
      assert VBMETA_A[9] == 'v' && VBMETA_B[9] == 'v' && VBMETA_R[9] == 'v';
      assert ZIRCON_A[15] == 'a' && ZIRCON_B[15] == 'b' && ZIRCON_R[15] == 'r';
      assert VBMETA_A[15] == 'a' && VBMETA_B[15] == 'b' && VBMETA_R[15] == 'r';
    }
  }

  lemma {:induction false} IndexFromFinds(name: string, i: nat, k: nat)
    requires i <= k < |ORDER| && ORDER[k] == name
    ensures IndexFrom(name, i) == Some(k + 1)
    decreases k - i
  {
    if i < k {
      OrderIsDistinct(i, k);
      IndexFromFinds(name, i + 1, k);
    }
  }

  /** Which names are recognised, and where they come: every name of the order in its place, and every other
      firmware name with the fourth. */
  lemma OrderOfIff(name: string, i: nat)
    ensures OrderOf(name) == Some(i) <==> 1 <= i <= |ORDER| && (if StartsWith(name, FIRMWARE) then i == 4 else name == ORDER[i - 1])
  {
    var key := if StartsWith(name, FIRMWARE) then FIRMWARE else name;
    IndexFromIs(key, 0);
    assert ORDER[3] == FIRMWARE;
    if StartsWith(name, FIRMWARE) {
      IndexFromFinds(FIRMWARE, 0, 3);
    } else if 1 <= i <= |ORDER| && name == ORDER[i - 1] {
      IndexFromFinds(name, 0, i - 1);
    }
  }

  /** The kernel, and nothing else, has the last index. */
  lemma KernelHasLastIndex(f: File)
    requires Recognised(f)
    ensures 1 <= f.index <= 14 && (f.index == 14 <==> f.name == KERNEL)
  {
    var name := if IsFirmware(f.name) then FIRMWARE else f.name;
    IndexFromIs(name, 0);
    assert ORDER[13] == KERNEL;
    assert KERNEL[2] == 'n' && FIRMWARE[2] == 'i';
    if f.name == KERNEL {
      assert KERNEL[..|FIRMWARE|][2] == 'n';
      assert !IsFirmware(KERNEL);
    }
    if IsFirmware(f.name) {
      assert f.name[..|FIRMWARE|][2] == 'i';
      assert ORDER[f.index - 1][2] == 'i';
    }
  }

  /** Sorted means by index, and within an index by name in byte order. */
  lemma InOrderIff(files: seq<File>)
    ensures InOrder(files) <==>
            forall i, j :: 0 <= i < j < |files| ==>
              files[i].index < files[j].index || (files[i].index == files[j].index && Le(files[i].name, files[j].name))
  {
    forall i, j | 0 <= i < j < |files|
      ensures !Less(files[j], files[i]) <==>
              files[i].index < files[j].index || (files[i].index == files[j].index && Le(files[i].name, files[j].name))
    {
      LeTotal(files[i].name, files[j].name);
      if Le(files[i].name, files[j].name) && Le(files[j].name, files[i].name) { LeAntisymmetric(files[i].name, files[j].name); }
    }
  }

  /** The order is fixed: the same files have only one sorted arrangement. */
  lemma {:induction false} ArrangementIsUnique(a: seq<File>, b: seq<File>)
    requires multiset(a) == multiset(b) && InOrder(a) && InOrder(b)
    ensures a == b
    decreases |a|
  {
    assert |multiset(a)| == |a| && |multiset(b)| == |b|;
    if a != [] {
      FirstIsLeast(a, b);
      FirstIsLeast(b, a);
      if a[0].index == b[0].index { LeAntisymmetric(a[0].name, b[0].name); }
      assert a == [a[0]] + a[1..] && b == [b[0]] + b[1..];
      assert multiset(a[1..]) == multiset(a) - multiset{a[0]} == multiset(b[1..]);
      ArrangementIsUnique(a[1..], b[1..]);
    }
  }

  lemma FirstIsLeast(a: seq<File>, b: seq<File>)
    requires multiset(a) == multiset(b) && InOrder(a) && a != [] && b != []
    ensures a[0].index < b[0].index || (a[0].index == b[0].index && Le(a[0].name, b[0].name))
  {
    assert b[0] in multiset(b);
    assert b[0] in a;
    var k :| 0 <= k < |a| && a[k] == b[0];
    if k == 0 { LeTotal(a[0].name, a[0].name); } else { InOrderIff(a); }
  }

  /** hasRAMKernel looks at the last file only, and that is right: in any sorted arrangement of the
      files the last one is the kernel if and only if there is a kernel. */
  lemma LastIsKernelIff(files: seq<File>, arranged: seq<File>)
    requires files != [] && multiset(arranged) == multiset(files) && InOrder(arranged)
    requires forall f :: f in files ==> Recognised(f)
    ensures arranged != []
    ensures arranged[|arranged| - 1].name == KERNEL <==> exists f :: f in files && f.name == KERNEL
  {
    assert |multiset(arranged)| == |arranged| && |multiset(files)| == |files|;
    var last := arranged[|arranged| - 1];
    assert last in multiset(arranged);
    assert last in files;
    if f :| f in files && f.name == KERNEL {
      assert f in multiset(files);
      assert f in multiset(arranged);
      var i :| 0 <= i < |arranged| && arranged[i] == f;
      KernelHasLastIndex(f);
      KernelHasLastIndex(last);
      assert i < |arranged| - 1 ==> !Less(last, arranged[i]);
    }
  }
}

module Transfer {
  import opened Basics
  import opened TransferOrder

  const MAX_ATTEMPTS := 21

  /** The device's answer to one write. */
  datatype Reply = Accept | Busy | Reject

  /** One pass through the innermost loop: whether the context is found cancelled, and if not, the reply. */
  datatype Step = Step(cancelled: bool, reply: Reply)

  datatype Event = Accepted(file: File) | Waited(file: File) | Skipped(file: File) | Refused(file: File)

  datatype Ending = Sent | GaveUp | Cancelled | OutOfSteps

  datatype Attempt = Attempt(ending: Ending, log: seq<Event>, rest: seq<Step>)

  /** One run of the function given to retry.Retry, fed with replies. */
  function TryAll(files: seq<File>, steps: seq<Step>): (a: Attempt)
    ensures |a.rest| <= |steps|
    decreases |steps|
  {
    if files == [] then Attempt(Sent, [], steps)
    else if steps == [] then Attempt(OutOfSteps, [], [])
    else if steps[0].cancelled then Attempt(Cancelled, [], steps[1..])
    else
      var f := files[0];
      match steps[0].reply
      case Accept => Logged(Accepted(f), TryAll(files[1..], steps[1..]))
      case Busy => Logged(Waited(f), TryAll(files, steps[1..]))
      case Reject =>
        if IsFirmware(f.name) then Logged(Skipped(f), TryAll(files[1..], steps[1..]))
        else Attempt(GaveUp, [Refused(f)], steps[1..])
  }

  function Logged(e: Event, a: Attempt): Attempt { a.(log := [e] + a.log) }

  /** What transfer reports. */
  datatype Outcome = Nil | Error | Unfinished

  datatype Result = Result(outcome: Outcome, attempts: seq<Attempt>)

  /** retry.Retry around it, from attempt number `n` on. `stops[i]` says that the context is cancelled while
      waiting after attempt i. */
  function Retry(files: seq<File>, steps: seq<Step>, stops: seq<bool>, n: nat): Result
    requires n < MAX_ATTEMPTS && |stops| == MAX_ATTEMPTS
    decreases MAX_ATTEMPTS - n
  {
    var a := TryAll(files, steps);
    match a.ending
    case Sent => Result(Nil, [a])
    case Cancelled => Result(Nil, [a])
    case OutOfSteps => Result(Unfinished, [a])
    case GaveUp =>
      if n + 1 == MAX_ATTEMPTS || stops[n] then Result(Error, [a])
      else var r := Retry(files, a.rest, stops, n + 1); r.(attempts := [a] + r.attempts)
  }

  /** The files settled in a log, in order. */
  function Settled(log: seq<Event>): seq<File> {
    if log == [] then []
    else (if log[0].Accepted? || log[0].Skipped? then [log[0].file] else []) + Settled(log[1..])
  }

  /** A log in which every file was dealt with once, in order, and all but firmware were accepted. */
  ghost predicate AllSent(files: seq<File>, log: seq<Event>) {
    && Settled(log) == files
    && (forall e :: e in log ==> !e.Refused?)
    && (forall e :: e in log && e.Skipped? ==> IsFirmware(e.file.name))
  }

  /** The last of the steps that were used up when `rest` is left. */
  function LastUsed(steps: seq<Step>, rest: seq<Step>): Option<Step> {
    if |rest| < |steps| then Some(steps[|steps| - |rest| - 1]) else None
  }

  /** The run stopped because its last check found the context cancelled. */
  predicate StoppedByCancel(steps: seq<Step>, rest: seq<Step>) {
    var last := LastUsed(steps, rest); last.Some? && last.value.cancelled
  }

  /** How an attempt can end, and what its log then shows. */
  ghost predicate Shows(files: seq<File>, a: Attempt) {
    && (a.ending == Sent ==> AllSent(files, a.log))
    && (a.ending == GaveUp ==> a.log != [] && var e := a.log[|a.log| - 1]; e.Refused? && e.file in files && !IsFirmware(e.file.name))
    && (a.ending == Cancelled ==> Settled(a.log) < files)
  }

  lemma {:induction false} AttemptShows(files: seq<File>, steps: seq<Step>)
    ensures Shows(files, TryAll(files, steps))
    decreases |steps|
  {
    if files != [] && steps != [] && !steps[0].cancelled {
      var f, more := files[0], steps[1..];
      match steps[0].reply
      case Accept => AttemptShows(files[1..], more); ShowsOneMore(files, Accepted(f), TryAll(files[1..], more));
      case Busy => AttemptShows(files, more); ShowsOneMore(files, Waited(f), TryAll(files, more));
      case Reject =>
        if IsFirmware(f.name) { AttemptShows(files[1..], more); ShowsOneMore(files, Skipped(f), TryAll(files[1..], more)); }
    }
  }

  lemma ShowsOneMore(files: seq<File>, e: Event, a: Attempt)
    requires files != [] && e.file == files[0] && !e.Refused? && (e.Skipped? ==> IsFirmware(e.file.name))
    requires Shows(if e.Waited? then files else files[1..], a)
    ensures Shows(files, Logged(e, a))
  {
    var log := [e] + a.log;
    assert log[1..] == a.log && (a.log != [] ==> log[|log| - 1] == a.log[|a.log| - 1]);
    assert files == [files[0]] + files[1..];
  }

  /** What a log entry says of the device's reply. */
  ghost predicate Tells(e: Event, reply: Reply) {
    && (e.Accepted? <==> reply == Accept)
    && (e.Waited? <==> reply == Busy)
    && (e.Skipped? <==> reply == Reject && IsFirmware(e.file.name))
    && (e.Refused? <==> reply == Reject && !IsFirmware(e.file.name))
  }

  /** An attempt makes one entry for each step it uses that is not cancelled; the entry tells the reply, and is
      about the first file not dealt with before. */
  ghost predicate Follows(files: seq<File>, steps: seq<Step>, log: seq<Event>) {
    && |log| <= |steps|
    && forall i :: 0 <= i < |log| ==>
         && !steps[i].cancelled && Tells(log[i], steps[i].reply)
         && |Settled(log[..i])| < |files| && log[i].file == files[|Settled(log[..i])|]
  }

  ghost predicate LogShows(files: seq<File>, steps: seq<Step>, a: Attempt) {
    && Follows(files, steps, a.log)
    && |a.rest| == |steps| - |a.log| - (if a.ending == Cancelled then 1 else 0)
    && (a.ending == Cancelled ==> |a.log| < |steps| && steps[|a.log|].cancelled)
    && (a.ending == Sent <==> |Settled(a.log)| == |files|)
    && (a.ending == OutOfSteps ==> a.rest == [])
  }

  lemma {:induction false} LogFollowsReplies(files: seq<File>, steps: seq<Step>)
    ensures LogShows(files, steps, TryAll(files, steps))
    decreases |steps|
  {
    if files != [] && steps != [] && !steps[0].cancelled {
      var f, more := files[0], steps[1..];
      match steps[0].reply
      case Accept => LogFollowsReplies(files[1..], more); OneMore(files, steps, Accepted(f), TryAll(files[1..], more));
      case Busy => LogFollowsReplies(files, more); OneMore(files, steps, Waited(f), TryAll(files, more));
      case Reject =>
        if IsFirmware(f.name) {
          LogFollowsReplies(files[1..], more);
          OneMore(files, steps, Skipped(f), TryAll(files[1..], more));
        } else {
          OnlyRefused(files, steps);
        }
    }
  }

  lemma OnlyRefused(files: seq<File>, steps: seq<Step>)
    requires files != [] && steps != [] && !steps[0].cancelled && steps[0].reply == Reject && !IsFirmware(files[0].name)
    ensures LogShows(files, steps, Attempt(GaveUp, [Refused(files[0])], steps[1..]))
  {
    var log := [Refused(files[0])];
    assert log[..0] == [] && log[1..] == [] && Settled(log) == [] + Settled([]);
  }

  /** An attempt from its first step on. */
  lemma OneMore(files: seq<File>, steps: seq<Step>, e: Event, a: Attempt)
    requires files != [] && steps != [] && !steps[0].cancelled && e.file == files[0] && Tells(e, steps[0].reply) && !e.Refused?
    requires LogShows(if e.Waited? then files else files[1..], steps[1..], a)
    ensures LogShows(files, steps, Logged(e, a))
  {
    FollowsOneMore(files, steps, e, a.log);
    assert ([e] + a.log)[1..] == a.log;
  }

  lemma FollowsOneMore(files: seq<File>, steps: seq<Step>, e: Event, tail: seq<Event>)
    requires files != [] && steps != [] && !steps[0].cancelled && e.file == files[0] && Tells(e, steps[0].reply) && !e.Refused?
    requires Follows(if e.Waited? then files else files[1..], steps[1..], tail)
    ensures Follows(files, steps, [e] + tail)
  {
    var log := [e] + tail;
    assert log[..0] == [];
    forall i | 0 < i < |log|
      ensures && !steps[i].cancelled && Tells(log[i], steps[i].reply)
              && |Settled(log[..i])| < |files| && log[i].file == files[|Settled(log[..i])|]
    {
      assert log[..i][0] == e && log[..i][1..] == tail[..i - 1];
      assert steps[i] == steps[1..][i - 1] && log[i] == tail[i - 1];
    }
  }

  // ------------------------------------------------------------------- in terms of the replies alone

  /** The replies that settle a file: acceptance, or for firmware also a refusal. */
  predicate Settles(f: File, s: Step) { !s.cancelled && (s.reply == Accept || (s.reply == Reject && IsFirmware(f.name))) }

  predicate IsBusy(s: Step) { !s.cancelled && s.reply == Busy }

  ghost predicate AllBusy(steps: seq<Step>) { forall i :: 0 <= i < |steps| ==> IsBusy(steps[i]) }

  /** The first file's share of the steps: busy replies, and then one that settles it. */
  ghost predicate Share(f: File, used: seq<Step>, n: nat) { n < |used| && AllBusy(used[..n]) && Settles(f, used[n]) }

  /** The device settled one file after the other, with nothing but busy replies in between. */
  ghost predicate Settling(files: seq<File>, used: seq<Step>)
    decreases |files|
  {
    if files == [] then used == []
    else exists n: nat :: Share(files[0], used, n) && Settling(files[1..], used[n + 1..])
  }

  lemma BusyFirst(files: seq<File>, s: Step, used: seq<Step>)
    requires files != [] && IsBusy(s) && Settling(files, used)
    ensures Settling(files, [s] + used)
  {
    var n: nat :| Share(files[0], used, n) && Settling(files[1..], used[n + 1..]);
    var all := [s] + used;
    assert all[..n + 1] == [s] + used[..n] && all[n + 1..][1..] == used[n + 1..] && all[n + 2..] == used[n + 1..];
    assert Share(files[0], all, n + 1);
  }

  lemma SettledFirst(files: seq<File>, s: Step, used: seq<Step>)
    requires files != [] && Settles(files[0], s) && Settling(files[1..], used)
    ensures Settling(files, [s] + used)
  {
    var all := [s] + used;
    assert all[..0] == [] && all[1..] == used;
    assert Share(files[0], all, 0);
  }

  lemma {:induction false} SentSettles(files: seq<File>, steps: seq<Step>)
    requires TryAll(files, steps).ending == Sent
    ensures Settling(files, steps[..|steps| - |TryAll(files, steps).rest|])
    decreases |steps|
  {
    if files == [] {
      assert steps[..0] == [];
    } else {
      var n := |steps| - |TryAll(files, steps).rest|;
      var more := steps[1..];
      assert steps[..n] == [steps[0]] + more[..n - 1];
      if steps[0].reply == Busy {
        SentSettles(files, more);
        BusyFirst(files, steps[0], more[..n - 1]);
      } else {
        SentSettles(files[1..], more);
        SettledFirst(files, steps[0], more[..n - 1]);
      }
    }
  }

  /** The first step used is a busy reply, or settles the first file. */
  lemma FirstUsed(files: seq<File>, used: seq<Step>)
    requires files != [] && Settling(files, used)
    ensures used != []
    ensures (IsBusy(used[0]) && Settling(files, used[1..])) || (Settles(files[0], used[0]) && Settling(files[1..], used[1..]))
  {
    var n: nat :| Share(files[0], used, n) && Settling(files[1..], used[n + 1..]);
    if n > 0 {
      var rest := used[1..];
      assert used[..n][0] == used[0];
      assert rest[..n - 1] == used[..n][1..] && rest[n - 1] == used[n] && rest[n..] == used[n + 1..];
      assert Share(files[0], rest, n - 1);
    }
  }

  lemma {:induction false} SettlingSent(files: seq<File>, steps: seq<Step>, m: nat)
    requires m <= |steps| && Settling(files, steps[..m])
    ensures TryAll(files, steps).ending == Sent && |TryAll(files, steps).rest| == |steps| - m
    decreases |steps|
  {
    if files != [] {
      FirstUsed(files, steps[..m]);
      assert steps[..m][0] == steps[0] && steps[..m][1..] == steps[1..][..m - 1];
      if IsBusy(steps[0]) { SettlingSent(files, steps[1..], m - 1); } else { SettlingSent(files[1..], steps[1..], m - 1); }
    }
  }

  /** An attempt ends well if and only if the device settles one file after the other, with nothing but busy
      replies in between. */
  lemma SentIffSettling(files: seq<File>, steps: seq<Step>)
    ensures TryAll(files, steps).ending == Sent <==> exists m: nat :: SettledBy(files, steps, m)
  {
    if TryAll(files, steps).ending == Sent {
      SentSettles(files, steps);
      assert SettledBy(files, steps, |steps| - |TryAll(files, steps).rest|);
    }
    if m: nat :| SettledBy(files, steps, m) { SettlingSent(files, steps, m); }
  }

  ghost predicate SettledBy(files: seq<File>, steps: seq<Step>, m: nat) { m <= |steps| && Settling(files, steps[..m]) }

  /** The last step used was one that settled the last file. */
  lemma {:induction false} SettlingEnds(files: seq<File>, used: seq<Step>)
    requires files != [] && Settling(files, used)
    ensures used != [] && Settles(files[|files| - 1], used[|used| - 1])
    decreases |files|
  {
    var n: nat :| Share(files[0], used, n) && Settling(files[1..], used[n + 1..]);
    if |files| > 1 { SettlingEnds(files[1..], used[n + 1..]); }
  }

  /** An attempt uses its steps in order, and the last one it uses is cancelled exactly if it ends so. */
  lemma {:induction false} AttemptEndsAt(files: seq<File>, steps: seq<Step>)
    ensures var a := TryAll(files, steps);
            && a.rest == steps[|steps| - |a.rest|..]
            && (StoppedByCancel(steps, a.rest) <==> a.ending == Cancelled)
            && (files != [] && a.ending != OutOfSteps ==> |a.rest| < |steps|)
    decreases |steps|
  {
    if files != [] && steps != [] && !steps[0].cancelled {
      var a := TryAll(files, steps);
      var left := if steps[0].reply == Busy then files else files[1..];
      if a.ending != GaveUp || steps[0].reply != Reject || IsFirmware(files[0].name) {
        AttemptEndsAt(left, steps[1..]);
        StoppedOfRest(steps, steps[1..], a.rest);
      }
    }
  }

  /** Using up more steps does not change which was the last. */
  lemma StoppedOfRest(steps: seq<Step>, mid: seq<Step>, rest: seq<Step>)
    requires |rest| <= |mid| <= |steps| && mid == steps[|steps| - |mid|..]
    ensures |rest| < |mid| ==> (StoppedByCancel(steps, rest) <==> StoppedByCancel(mid, rest))
    ensures rest == mid[|mid| - |rest|..] ==> rest == steps[|steps| - |rest|..]
  {
  }

  /** All attempts but the last were refused. The last one had all files sent if and only if it did not end
      at a check that found the context cancelled; if it did, a proper prefix of the files was dealt with. */
  ghost predicate SentUnlessCancelled(files: seq<File>, steps: seq<Step>, attempts: seq<Attempt>) {
    && attempts != []
    && (forall i :: 0 <= i < |attempts| - 1 ==> attempts[i].ending == GaveUp)
    && var last := attempts[|attempts| - 1];
       && (files != [] ==> |last.rest| < |steps|)
       && (AllSent(files, last.log) <==> !StoppedByCancel(steps, last.rest))
       && (StoppedByCancel(steps, last.rest) ==> Settled(last.log) < files)
       && (!StoppedByCancel(steps, last.rest) <==> TakenFromSome(files, steps, last.rest))
  }

  /** From some step on, and up to `rest`, the device settled one file after the other. */
  ghost predicate TakenFromSome(files: seq<File>, steps: seq<Step>, rest: seq<Step>) {
    exists from: nat :: TakenFrom(files, steps, rest, from)
  }

  ghost predicate TakenFrom(files: seq<File>, steps: seq<Step>, rest: seq<Step>, from: nat) {
    from <= |steps| - |rest| && Settling(files, steps[from..|steps| - |rest|])
  }

  /** A run that was taken did not stop at a cancelled step. */
  lemma TakenIsNotStopped(files: seq<File>, steps: seq<Step>, rest: seq<Step>)
    requires files != [] && TakenFromSome(files, steps, rest)
    ensures !StoppedByCancel(steps, rest)
  {
    var from: nat :| TakenFrom(files, steps, rest, from);
    SettlingEnds(files, steps[from..|steps| - |rest|]);
  }

  lemma SentIsTaken(files: seq<File>, steps: seq<Step>)
    requires TryAll(files, steps).ending == Sent
    ensures TakenFromSome(files, steps, TryAll(files, steps).rest)
  {
    SentSettles(files, steps);
    var n := |steps| - |TryAll(files, steps).rest|;
    assert steps[0..n] == steps[..n];
    assert TakenFrom(files, steps, TryAll(files, steps).rest, 0);
  }

  lemma TakenLater(files: seq<File>, steps: seq<Step>, mid: seq<Step>, rest: seq<Step>)
    requires |mid| <= |steps| && mid == steps[|steps| - |mid|..] && TakenFromSome(files, mid, rest)
    ensures TakenFromSome(files, steps, rest)
  {
    var from: nat :| TakenFrom(files, mid, rest, from);
    var shift := |steps| - |mid|;
    assert steps[from + shift..|steps| - |rest|] == mid[from..|mid| - |rest|];
    assert TakenFrom(files, steps, rest, from + shift);
  }

  /** What it means that transfer reports no error: in its last attempt every file was dealt with, in order
      and every file but firmware was accepted, if and only if the last step it used did not find the context
      cancelled; and that is so if and only if from some step on the device settled one file after the other,
      up to the last step used, with nothing but busy replies in between. Steps never reached do not matter. */
  lemma {:induction false} NilMeansAllSentIff(files: seq<File>, steps: seq<Step>, stops: seq<bool>, n: nat)
    requires n < MAX_ATTEMPTS && |stops| == MAX_ATTEMPTS
    requires Retry(files, steps, stops, n).outcome == Nil
    ensures SentUnlessCancelled(files, steps, Retry(files, steps, stops, n).attempts)
    ensures |Retry(files, steps, stops, n).attempts| <= MAX_ATTEMPTS - n
    decreases MAX_ATTEMPTS - n
  {
    var a := TryAll(files, steps);
    AttemptShows(files, steps);
    AttemptEndsAt(files, steps);
    if a.ending == Sent { SentIsTaken(files, steps); }
    if a.ending == Cancelled && TakenFromSome(files, steps, a.rest) { TakenIsNotStopped(files, steps, a.rest); }
    if a.ending == GaveUp {
      NilMeansAllSentIff(files, a.rest, stops, n + 1);
      AfterRefusal(files, steps, a, Retry(files, a.rest, stops, n + 1).attempts);
    }
  }

  lemma AfterRefusal(files: seq<File>, steps: seq<Step>, a: Attempt, attempts: seq<Attempt>)
    requires files != [] && a.ending == GaveUp && |a.rest| <= |steps| && a.rest == steps[|steps| - |a.rest|..]
    requires SentUnlessCancelled(files, a.rest, attempts)
    ensures SentUnlessCancelled(files, steps, [a] + attempts)
  {
    var last := attempts[|attempts| - 1].rest;
    StoppedOfRest(steps, a.rest, last);
    if TakenFromSome(files, a.rest, last) { TakenLater(files, steps, a.rest, last); }
    if TakenFromSome(files, steps, last) { TakenIsNotStopped(files, steps, last); }
  }

  /** Attempts one after the other: all but the last were refused, and each starts where the one before it ended. */
  ghost predicate InTurn(files: seq<File>, steps: seq<Step>, attempts: seq<Attempt>)
    decreases |attempts|
  {
    && attempts != [] && attempts[0] == TryAll(files, steps)
    && (|attempts| > 1 ==> attempts[0].ending == GaveUp && InTurn(files, attempts[0].rest, attempts[1..]))
  }

  /** The outcome is that of the last attempt: no error if it was sent or cancelled, an error if it was refused. */
  lemma {:induction false} OutcomeIsOfLast(files: seq<File>, steps: seq<Step>, stops: seq<bool>, n: nat)
    requires n < MAX_ATTEMPTS && |stops| == MAX_ATTEMPTS
    ensures var r := Retry(files, steps, stops, n);
            && InTurn(files, steps, r.attempts)
            && var last := r.attempts[|r.attempts| - 1].ending;
               && (r.outcome == Nil <==> last == Sent || last == Cancelled)
               && (r.outcome == Error <==> last == GaveUp)
    decreases MAX_ATTEMPTS - n
  {
    var a := TryAll(files, steps);
    if a.ending == GaveUp && n + 1 < MAX_ATTEMPTS && !stops[n] {
      OutcomeIsOfLast(files, a.rest, stops, n + 1);
      OneMoreAttempt(files, steps, a, Retry(files, a.rest, stops, n + 1).attempts);
    }
  }

  lemma OneMoreAttempt(files: seq<File>, steps: seq<Step>, a: Attempt, more: seq<Attempt>)
    requires a == TryAll(files, steps) && a.ending == GaveUp && InTurn(files, a.rest, more)
    ensures InTurn(files, steps, [a] + more) && ([a] + more)[|more|] == more[|more| - 1]
  {
    assert ([a] + more)[1..] == more;
  }

  /** If the device settles one file after the other from the start, there is one attempt and no error. */
  lemma SettlingReportsSuccess(files: seq<File>, steps: seq<Step>, stops: seq<bool>, m: nat)
    requires |stops| == MAX_ATTEMPTS && SettledBy(files, steps, m)
    ensures Retry(files, steps, stops, 0).outcome == Nil && |Retry(files, steps, stops, 0).attempts| == 1
  {
    SettlingSent(files, steps, m);
  }

  /** An error means that every attempt made was refused, and that the last of them was number 21 or was
      followed by a cancellation; none before it was. */
  lemma {:induction false} ErrorMeansAllRefused(files: seq<File>, steps: seq<Step>, stops: seq<bool>, n: nat)
    requires n < MAX_ATTEMPTS && |stops| == MAX_ATTEMPTS
    requires Retry(files, steps, stops, n).outcome == Error
    ensures var attempts := Retry(files, steps, stops, n).attempts;
            && 0 < |attempts| <= MAX_ATTEMPTS - n
            && (forall i :: 0 <= i < |attempts| ==> attempts[i].ending == GaveUp)
            && (forall k :: n <= k < n + |attempts| - 1 ==> !stops[k])
            && (|attempts| == MAX_ATTEMPTS - n || stops[n + |attempts| - 1])
    decreases MAX_ATTEMPTS - n
  {
    var a := TryAll(files, steps);
    if n + 1 < MAX_ATTEMPTS && !stops[n] {
      ErrorMeansAllRefused(files, a.rest, stops, n + 1);
      var rest := Retry(files, a.rest, stops, n + 1).attempts;
      assert forall i :: 0 < i < |[a] + rest| ==> ([a] + rest)[i] == rest[i - 1];
    }
  }

  /** A device that accepts the first `i` files, and a context cancelled then. */
  function AcceptThenCancel(i: nat): seq<Step> {
    if i == 0 then [Step(true, Accept)] else [Step(false, Accept)] + AcceptThenCancel(i - 1)
  }

  lemma {:induction false} AcceptedSoFar(files: seq<File>, i: nat)
    requires i < |files|
    ensures var a := TryAll(files, AcceptThenCancel(i)); a.ending == Cancelled && Settled(a.log) == files[..i]
  {
    if i > 0 {
      assert AcceptThenCancel(i)[1..] == AcceptThenCancel(i - 1);
      AcceptedSoFar(files[1..], i - 1);
      var a := TryAll(files[1..], AcceptThenCancel(i - 1));
      assert ([Accepted(files[0])] + a.log)[1..] == a.log;
      assert files[..i] == [files[0]] + files[1..][..i - 1];
    }
  }

  /** Any proper prefix of the files, the empty one included, can be all that was sent when transfer
      reports success. */
  lemma CancelledReportsSuccess(files: seq<File>, i: nat, stops: seq<bool>)
    requires i < |files| && |stops| == MAX_ATTEMPTS
    ensures var r := Retry(files, AcceptThenCancel(i), stops, 0);
            r.outcome == Nil && |r.attempts| == 1 && Settled(r.attempts[0].log) == files[..i]
  {
    AcceptedSoFar(files, i);
  }

  lemma {:induction false} SettledEvent(log: seq<Event>, f: File)
    requires f in Settled(log)
    ensures Accepted(f) in log || Skipped(f) in log
  {
    if !((log[0].Accepted? || log[0].Skipped?) && log[0].file == f) { SettledEvent(log[1..], f); }
  }

  lemma AllAccepted(files: seq<File>, arranged: seq<File>, log: seq<Event>)
    requires multiset(arranged) == multiset(files) && AllSent(arranged, log)
    ensures forall f :: f in files && !IsFirmware(f.name) ==> Accepted(f) in log
  {
    forall f | f in files && !IsFirmware(f.name)
      ensures Accepted(f) in log
    {
      assert f in multiset(files);
      assert f in multiset(arranged);
      SettledEvent(log, f);
    }
  }

  lemma IndicesGrow(arranged: seq<File>)
    requires InOrder(arranged)
    ensures forall i, j :: 0 <= i < j < |arranged| ==> arranged[i].index <= arranged[j].index
  {
    forall i, j | 0 <= i < j < |arranged|
      ensures arranged[i].index <= arranged[j].index
    {
      assert !Less(arranged[j], arranged[i]);
    }
  }

  /** transferImages, when transfer reports no error and did not end at a cancelled context: within the
      last attempt the files were dealt with by increasing index, every file but firmware was accepted, and
      hasRAMKernel is set if and only if a kernel is among them, which was then accepted last. */
  lemma TransferImagesSends(files: seq<File>, arranged: seq<File>, steps: seq<Step>, stops: seq<bool>)
    requires files != [] && multiset(arranged) == multiset(files) && InOrder(arranged)
    requires forall f :: f in files ==> Recognised(f)
    requires |stops| == MAX_ATTEMPTS && Retry(arranged, steps, stops, 0).outcome == Nil
    requires var attempts := Retry(arranged, steps, stops, 0).attempts;
             attempts != [] ==> !StoppedByCancel(steps, attempts[|attempts| - 1].rest)
    ensures var attempts := Retry(arranged, steps, stops, 0).attempts;
            && attempts != []
            && var log := attempts[|attempts| - 1].log;
               && Settled(log) == arranged != []
               && (forall i, j :: 0 <= i < j < |arranged| ==> arranged[i].index <= arranged[j].index)
               && (forall f :: f in files && !IsFirmware(f.name) ==> Accepted(f) in log)
    ensures arranged[|arranged| - 1].name == KERNEL <==> exists f :: f in files && f.name == KERNEL
  {
    assert |multiset(arranged)| == |multiset(files)|;
    NilMeansAllSentIff(arranged, steps, stops, 0);
    LastIsKernelIff(files, arranged);
    IndicesGrow(arranged);
    var attempts := Retry(arranged, steps, stops, 0).attempts;
    AllAccepted(files, arranged, attempts[|attempts| - 1].log);
  }

  // ---------------------------------------------------------------- the loops themselves

  /** The nested loops of one attempt. */
  method AttemptLoop(files: seq<File>, steps: seq<Step>) returns (a: Attempt)
    ensures a == TryAll(files, steps)
  {
    var rest, log := steps, [];
    for i := 0 to |files|
      invariant TryAll(files, steps) == Prepend(log, TryAll(files[i..], rest))
    {
      var f := files[i];
      while true
        invariant TryAll(files, steps) == Prepend(log, TryAll(files[i..], rest))
        decreases |rest|
      {
        assert files[i..][0] == f && files[i..][1..] == files[i + 1..];
        if rest == [] { return Attempt(OutOfSteps, log, []); }
        var s := rest[0];
        rest := rest[1..];
        if s.cancelled { return Attempt(Cancelled, log, rest); }
        match s.reply {
          case Busy =>
            PrependOne(log, Waited(f), TryAll(files[i..], rest));
            log := log + [Waited(f)];
            continue;
          case Accept =>
            PrependOne(log, Accepted(f), TryAll(files[i + 1..], rest));
            log := log + [Accepted(f)];
          case Reject =>
            if !IsFirmware(f.name) { return Attempt(GaveUp, log + [Refused(f)], rest); }
            PrependOne(log, Skipped(f), TryAll(files[i + 1..], rest));
            log := log + [Skipped(f)];
        }
        break;
      }
    }
    return Attempt(Sent, log, rest);
  }

  ghost function Prepend(log: seq<Event>, a: Attempt): Attempt { a.(log := log + a.log) }

  lemma PrependOne(log: seq<Event>, e: Event, a: Attempt)
    ensures Prepend(log, Logged(e, a)) == Prepend(log + [e], a)
  {
    assert log + ([e] + a.log) == log + [e] + a.log;
  }

  /** transfer */
  method TransferAll(files: seq<File>, steps: seq<Step>, stops: seq<bool>) returns (r: Result)
    requires |stops| == MAX_ATTEMPTS
    ensures r == Retry(files, steps, stops, 0)
  {
    var rest, attempts, n := steps, [], 0;
    while true
      invariant 0 <= n < MAX_ATTEMPTS
      invariant var more := Retry(files, rest, stops, n); Retry(files, steps, stops, 0) == more.(attempts := attempts + more.attempts)
      decreases MAX_ATTEMPTS - n
    {
      var a := AttemptLoop(files, rest);
      rest := a.rest;
      match a.ending {
        case Sent => return Result(Nil, attempts + [a]);
        case Cancelled => return Result(Nil, attempts + [a]);
        case OutOfSteps => return Result(Unfinished, attempts + [a]);
        case GaveUp =>
          if n + 1 == MAX_ATTEMPTS || stops[n] { return Result(Error, attempts + [a]); }
          ghost var more := Retry(files, rest, stops, n + 1);
          assert attempts + ([a] + more.attempts) == attempts + [a] + more.attempts;
          attempts := attempts + [a];
          n := n + 1;
      }
    }
  }
}
