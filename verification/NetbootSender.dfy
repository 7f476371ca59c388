/** The host side of the netboot file transfer, tools/bootserver_old/netboot.c.

    `Step` is one turn of the send loop as a function of everything the outside
    world can decide (how many bytes a read returns, what select reports, which
    reply is waiting). `Transfer` is the loop itself, updating its fields in
    place, and is proved to follow `Step`. */
module NetbootSender {
  import opened Basics

  type u32 = x: int | 0 <= x < 0x1_0000_0000

  // zircon/boot/netboot.h
  const NB_MAGIC: u32 := 0xAA774217
  const NB_ACK: u32 := 0
  const NB_SEND_FILE: u32 := 2
  const NB_DATA: u32 := 3
  const NB_LAST_DATA: u32 := 11
  const NB_FILE_RECEIVED: u32 := 0x70000001
  const NB_ERROR_TOO_LARGE: u32 := 0x80000003
  const NB_ERROR_BAD_FILE: u32 := 0x80000004

  const PAYLOAD_SIZE := 1280
  const MAX_READ_RETRIES := 10

  /** A message header; replies are bare headers. */
  datatype Header = Header(magic: u32, cookie: u32, cmd: u32, arg: u32)

  datatype Message = Message(hdr: Header, data: seq<byte>)

  const NO_ACK := Header(0, 0, 0, 0)

  // ---------------------------------------------------------------- io_rcv

  /** What one read(2) on the socket can do. */
  datatype ReadAttempt = Again | ReadError | TooShort | Packet(hdr: Header)

  /** The verdict of io_rcv on a packet. A packet with a foreign magic, or with
      a cookie from the future, is reported on stderr but still handed on. */
  predicate HandedOn(h: Header, sentCookie: Option<u32>) {
    || h.magic != NB_MAGIC
    || (sentCookie.Some? && h.cookie > sentCookie.value)
    || h.cmd == NB_ACK
    || h.cmd == NB_FILE_RECEIVED
  }

  /** io_rcv over its ten chances to read. */
  method IoRcv(sentCookie: Option<u32>, attempts: seq<ReadAttempt>) returns (ack: Option<Header>)
    requires |attempts| == MAX_READ_RETRIES
    ensures ack.Some? ==>
              && HandedOn(ack.value, sentCookie)
              && exists i :: 0 <= i < |attempts| && attempts[i] == Packet(ack.value) && forall j :: 0 <= j < i ==> attempts[j] == Again
    ensures ack.None? ==>
              || (forall j :: 0 <= j < |attempts| ==> attempts[j] == Again)
              || exists i :: && 0 <= i < |attempts|
                             && (forall j :: 0 <= j < i ==> attempts[j] == Again)
                             && attempts[i] != Again
                             && (attempts[i].Packet? ==> !HandedOn(attempts[i].hdr, sentCookie))
  {
    for i := 0 to MAX_READ_RETRIES
      invariant forall j :: 0 <= j < i ==> attempts[j] == Again
    {
      var retryAllowed := i + 1 < MAX_READ_RETRIES;
      match attempts[i]
      case Again =>
        if !retryAllowed { return None; }
      case ReadError => return None;
      case TooShort => return None;
      case Packet(h) =>
        if h.magic != NB_MAGIC { return Some(h); }
        if sentCookie.Some? && h.cookie > sentCookie.value { return Some(h); }
        if h.cmd == NB_ACK || h.cmd == NB_FILE_RECEIVED { return Some(h); }
        return None;
    }
    return None;
  }

  // ------------------------------------------------- one turn of the loop

  /** The file being sent. `inMemory` is the command-line case, where the source
      is a buffer and not a stdio file. */
  datatype Source = Source(bytes: seq<byte>, inMemory: bool) {
    ghost predicate Valid() { |bytes| < 0x1_0000_0000 }
  }

  /** Loop state: `pos` is the read cursor (`ptr`, or the stdio position). */
  datatype Sender = Sender(pos: nat, currentPos: nat, arg: u32, cookie: u32)

  /** Everything the environment decides during one turn.
      - `readFails`, `readLen`: what fread does when asked for a payload;
      - `selectOk`, `readable`, `writable`: the answer of select;
      - `reply`: the packet io_rcv ends with, None when it gives up;
      - `sendOk`: whether write(2) succeeds. */
  datatype Turn = Turn(readFails: bool, readLen: nat, selectOk: bool, readable: bool, writable: bool,
                       reply: Option<Header>, sendOk: bool)

  datatype Outcome = Continue | Completed | Aborted

  datatype StepResult = StepResult(next: Sender, sent: Option<Message>, ack: Header, outcome: Outcome)

  /** Bytes one xread returns at cursor `pos`; None is a read error. */
  function XReadCount(src: Source, pos: nat, t: Turn): (r: Option<nat>)
    ensures r.Some? ==> r.value <= PAYLOAD_SIZE && pos + r.value <= (if pos <= |src.bytes| then |src.bytes| else pos)
    ensures r.Some? ==> (r.value == 0 <==> pos >= |src.bytes|)
  {
    var avail := if pos <= |src.bytes| then |src.bytes| - pos else 0;
    if src.inMemory then Some(Min(PAYLOAD_SIZE, avail))
    else if t.readFails then None
    else if avail == 0 then Some(0)
    else Some(Min(if t.readLen == 0 then 1 else t.readLen, Min(PAYLOAD_SIZE, avail)))
  }

  /** An NB_ACK with a nonzero cookie asks the sender to go back: "ACKs really are NACKs". */
  predicate IsNack(ack: Header) { ack.cookie > 0 && ack.cmd == NB_ACK }

  function DataMessage(src: Source, s: Sender, r: nat): Message
    requires s.pos + r <= |src.bytes|
  {
    var cmd := if s.currentPos + r >= |src.bytes| then NB_LAST_DATA else NB_DATA;
    Message(Header(NB_MAGIC, s.cookie, cmd, s.arg), src.bytes[s.pos..s.pos + r])
  }

  /** Truncation to 32 bits. */
  function U32(x: nat): u32 { if x < 0x1_0000_0000 then x else x % 0x1_0000_0000 }

  datatype IoResult = IoFailed | IoDone(sent: Option<Message>, ack: Header)

  /** io: with a message, read a waiting reply and send unless that reply is a NACK;
      without one, only wait for a reply. */
  function Io(msg: Option<Message>, t: Turn): IoResult {
    if msg.None? then
      if t.reply.None? || !HandedOn(t.reply.value, None) then IoFailed
      else IoDone(None, t.reply.value)
    else if !t.selectOk || !(t.readable || t.writable) then IoFailed
    else if t.readable && (t.reply.None? || !HandedOn(t.reply.value, Some(msg.value.hdr.cookie))) then IoFailed
    else
      var ack := if t.readable then t.reply.value else NO_ACK;
      if t.writable && (ack.cookie == 0 || ack.cmd != NB_ACK) then
        if t.sendOk then IoDone(msg, ack) else IoFailed
      else IoDone(None, ack)
  }

  /** The tail of a turn: obey the reply, or advance past what was read. */
  function AfterIo(src: Source, s: Sender, r: nat, cookie: u32, io: IoResult): StepResult {
    if io.IoFailed? then StepResult(s, None, NO_ACK, Aborted)
    else if IsNack(io.ack) then
      if src.inMemory && io.ack.arg > |src.bytes| then StepResult(s, io.sent, io.ack, Aborted)
      else StepResult(Sender(io.ack.arg, io.ack.arg, io.ack.arg, cookie), io.sent, io.ack, Continue)
    else
      var p := s.currentPos + r;
      StepResult(Sender(s.pos + r, p, U32(p), cookie), io.sent, io.ack,
                 if io.ack.cmd == NB_FILE_RECEIVED then Completed else Continue)
  }

  function Step(src: Source, s: Sender, t: Turn): StepResult {
    match XReadCount(src, s.pos, t)
    case None => StepResult(s, None, NO_ACK, Aborted)
    case Some(r) =>
      if r == 0 then AfterIo(src, s, 0, s.cookie, Io(None, t))
      else AfterIo(src, s, r, U32(s.cookie + 1), Io(Some(DataMessage(src, s, r)), t))
  }

  // ------------------------------------- what holds against any reply stream

  /** The cursor, current_pos and msg->arg agree. */
  ghost predicate InStep(src: Source, s: Sender) {
    s.pos == s.currentPos == s.arg && (src.inMemory ==> s.pos <= |src.bytes|)
  }

  /** `m` carries exactly the source bytes at its offset, and says whether they are the last. */
  ghost predicate Faithful(src: Source, m: Message) {
    && m.hdr.magic == NB_MAGIC
    && 0 < |m.data| <= PAYLOAD_SIZE
    && m.hdr.arg + |m.data| <= |src.bytes|
    && m.data == src.bytes[m.hdr.arg..m.hdr.arg + |m.data|]
    && m.hdr.cmd == (if m.hdr.arg + |m.data| == |src.bytes| then NB_LAST_DATA else NB_DATA)
  }

  lemma StepKeepsInStep(src: Source, s: Sender, t: Turn)
    requires src.Valid() && InStep(src, s)
    ensures var r := Step(src, s, t);
            && InStep(src, r.next)
            && (r.sent.Some? ==> Faithful(src, r.sent.value) && r.sent.value.hdr.arg == s.arg && r.sent.value.hdr.cookie == s.cookie)
  {
  }

  /** Given a writable socket, a turn that read bytes holds them back exactly when it
      goes back instead of advancing past them. */
  lemma SuppressedIffRewound(src: Source, s: Sender, t: Turn)
    requires src.Valid() && InStep(src, s)
    requires t.writable && Step(src, s, t).outcome != Aborted && s.pos < |src.bytes|
    ensures var r := Step(src, s, t);
            && (r.sent.None? <==> IsNack(r.ack))
            && (r.sent.Some? ==> r.next.pos == s.pos + |r.sent.value.data|)
            && (r.sent.None? ==> r.next.pos == r.ack.arg)
  {
  }

  // ------------------------------------------------------------- whole runs

  datatype Event = Sent(msg: Message) | Rewind(offset: nat)

  function EventsOf(r: StepResult): seq<Event> {
    (if r.sent.Some? then [Sent(r.sent.value)] else []) +
    (if r.outcome == Continue && IsNack(r.ack) then [Rewind(r.ack.arg)] else [])
  }

  datatype RunResult = RunResult(end: Sender, events: seq<Event>, outcome: Outcome)

  /** The loop over a finite prefix of turns. */
  function Run(src: Source, s: Sender, ts: seq<Turn>): RunResult
    decreases |ts|
  {
    if ts == [] then RunResult(s, [], Continue)
    else var r := Step(src, s, ts[0]); Then(r, Run(src, r.next, ts[1..]))
  }

  /** A run whose first turn ended as `r` and went on as `rest`. */
  function Then(r: StepResult, rest: RunResult): RunResult {
    if r.outcome != Continue then RunResult(r.next, EventsOf(r), r.outcome)
    else rest.(events := EventsOf(r) + rest.events)
  }

  lemma ThenAssoc(r: StepResult, before: RunResult, last: StepResult)
    requires r.outcome == Continue
    ensures Then(r, RunResult(last.next, before.events + EventsOf(last), last.outcome)) ==
            RunResult(last.next, Then(r, before).events + EventsOf(last), last.outcome)
  {
    assert EventsOf(r) + (before.events + EventsOf(last)) == EventsOf(r) + before.events + EventsOf(last);
  }

  lemma ThenNothing(r: StepResult)
    ensures Then(r, RunResult(r.next, [], Continue)) == RunResult(r.next, [] + EventsOf(r), r.outcome)
  {
    assert EventsOf(r) + [] == EventsOf(r) == [] + EventsOf(r);
  }

  lemma {:induction false} RunSnoc(src: Source, s: Sender, ts: seq<Turn>, t: Turn)
    requires Run(src, s, ts).outcome == Continue
    ensures var before := Run(src, s, ts);
            var r := Step(src, before.end, t);
            Run(src, s, ts + [t]) == RunResult(r.next, before.events + EventsOf(r), r.outcome)
    decreases |ts|
  {
    var r := Step(src, s, (ts + [t])[0]);
    if ts == [] {
      assert (ts + [t])[1..] == [];
      ThenNothing(r);
    } else {
      assert (ts + [t])[1..] == ts[1..] + [t];
      RunSnoc(src, r.next, ts[1..], t);
      var before := Run(src, r.next, ts[1..]);
      ThenAssoc(r, before, Step(src, before.end, t));
    }
  }

  /** Turns after the loop has ended change nothing. */
  lemma {:induction false} RunStopped(src: Source, s: Sender, ts: seq<Turn>, i: nat)
    requires i <= |ts| && Run(src, s, ts[..i]).outcome != Continue
    ensures Run(src, s, ts) == Run(src, s, ts[..i])
    decreases i
  {
    if i > 0 {
      assert ts[..i][0] == ts[0] && ts[..i][1..] == ts[1..][..i - 1];
      var r := Step(src, s, ts[0]);
      if r.outcome == Continue { RunStopped(src, r.next, ts[1..], i - 1); }
    }
  }

  /** Where a receiver that saw every event would expect the next packet, starting at `from`;
      None as soon as a packet is not where the previous one (or the last rewind) left off. */
  function Frontier(from: nat, es: seq<Event>): Option<nat>
    decreases |es|
  {
    if es == [] then Some(from)
    else match es[0]
      case Rewind(o) => Frontier(o, es[1..])
      case Sent(m) => if m.hdr.arg != from then None else Frontier(from + |m.data|, es[1..])
  }

  lemma {:induction false} FrontierConcat(from: nat, a: seq<Event>, b: seq<Event>)
    ensures Frontier(from, a + b) == (var f := Frontier(from, a); if f.None? then None else Frontier(f.value, b))
    decreases |a|
  {
    if a == [] {
      assert a + b == b;
    } else {
      assert (a + b)[0] == a[0] && (a + b)[1..] == a[1..] + b;
      match a[0]
      case Rewind(o) => FrontierConcat(o, a[1..], b);
      case Sent(m) => if m.hdr.arg == from { FrontierConcat(from + |m.data|, a[1..], b); }
    }
  }

  lemma EventsFrontier(src: Source, s: Sender, t: Turn)
    requires src.Valid() && InStep(src, s)
    requires t.writable
    ensures var r := Step(src, s, t);
            r.outcome == Continue ==> Frontier(s.pos, EventsOf(r)) == Some(r.next.pos)
    ensures Frontier(s.pos, EventsOf(Step(src, s, t))).Some?
  {
    var r := Step(src, s, t);
    StepKeepsInStep(src, s, t);
    if r.sent.Some? {
      var m := r.sent.value;
      assert EventsOf(r) == [Sent(m)];
      assert Frontier(s.pos, [Sent(m)]) == Frontier(s.pos + |m.data|, []);
    } else if r.outcome == Continue && IsNack(r.ack) {
      assert EventsOf(r) == [Rewind(r.ack.arg)];
      assert Frontier(s.pos, [Rewind(r.ack.arg)]) == Frontier(r.ack.arg, []);
    } else {
      assert EventsOf(r) == [];
    }
  }

  /** Every packet of every run, whatever the replies, is faithful to the source. */
  lemma {:induction false} RunIsFaithful(src: Source, s: Sender, ts: seq<Turn>)
    requires src.Valid() && InStep(src, s)
    ensures InStep(src, Run(src, s, ts).end)
    ensures forall e :: e in Run(src, s, ts).events && e.Sent? ==> Faithful(src, e.msg)
    decreases |ts|
  {
    if ts != [] {
      StepKeepsInStep(src, s, ts[0]);
      var r := Step(src, s, ts[0]);
      if r.outcome == Continue { RunIsFaithful(src, r.next, ts[1..]); }
    }
  }

  /** While the socket stays writable, the packets since the last rewind (or the start)
      are contiguous from the offset rewound to. */
  lemma {:induction false} RunIsContiguous(src: Source, s: Sender, ts: seq<Turn>)
    requires src.Valid() && InStep(src, s)
    requires forall t :: t in ts ==> t.writable
    ensures Frontier(s.pos, Run(src, s, ts).events).Some?
    ensures Run(src, s, ts).outcome == Continue ==> Frontier(s.pos, Run(src, s, ts).events) == Some(Run(src, s, ts).end.pos)
    decreases |ts|
  {
    if ts != [] {
      StepKeepsInStep(src, s, ts[0]);
      EventsFrontier(src, s, ts[0]);
      var r := Step(src, s, ts[0]);
      if r.outcome == Continue {
        RunIsContiguous(src, r.next, ts[1..]);
        FrontierConcat(s.pos, EventsOf(r), Run(src, r.next, ts[1..]).events);
      }
    }
  }

  // ---------------------------------------------------------------- cookies

  /** A turn that reads bytes uses up a cookie, whether or not its packet goes out. */
  lemma StepCookie(src: Source, s: Sender, t: Turn)
    requires s.cookie < 0xFFFF_FFFF
    ensures var r := Step(src, s, t);
            && (r.outcome != Aborted ==> r.next.cookie == s.cookie + if s.pos < |src.bytes| then 1 else 0)
            && (r.sent.Some? ==> s.pos < |src.bytes| && r.sent.value.hdr.cookie == s.cookie)
  {
  }

  /** The turns of a run that read bytes. */
  function Reads(src: Source, s: Sender, ts: seq<Turn>): nat
    decreases |ts|
  {
    if ts == [] then 0
    else
      var r := Step(src, s, ts[0]);
      (if s.pos < |src.bytes| then 1 else 0) + if r.outcome == Continue then Reads(src, r.next, ts[1..]) else 0
  }

  /** Until the cookie wraps around it counts the turns that read bytes, so that a packet held back uses up its
      cookie too; and the packets of a run carry cookies from the first on. */
  lemma {:induction false} RunCookies(src: Source, s: Sender, ts: seq<Turn>)
    requires s.cookie + |ts| < 0x1_0000_0000
    ensures var r := Run(src, s, ts);
            && (r.outcome != Aborted ==> r.end.cookie == s.cookie + Reads(src, s, ts))
            && Reads(src, s, ts) <= |ts|
            && forall i :: 0 <= i < |r.events| && r.events[i].Sent? ==> s.cookie <= r.events[i].msg.hdr.cookie < s.cookie + Reads(src, s, ts)
    decreases |ts|
  {
    if ts != [] {
      var r := Step(src, s, ts[0]);
      StepCookie(src, s, ts[0]);
      if r.outcome == Continue { RunCookies(src, r.next, ts[1..]); }
    }
  }

  /** Later packets carry greater cookies. */
  ghost predicate CookiesGrow(es: seq<Event>) {
    forall i, j :: 0 <= i < j < |es| && es[i].Sent? && es[j].Sent? ==> es[i].msg.hdr.cookie < es[j].msg.hdr.cookie
  }

  /** Until the cookie wraps around, no two packets of a run carry the same cookie: it grows from each to the next. */
  lemma {:induction false} RunCookiesGrow(src: Source, s: Sender, ts: seq<Turn>)
    requires s.cookie + |ts| < 0x1_0000_0000
    ensures CookiesGrow(Run(src, s, ts).events)
    decreases |ts|
  {
    if ts != [] {
      var r := Step(src, s, ts[0]);
      StepCookie(src, s, ts[0]);
      if r.outcome == Continue {
        RunCookies(src, r.next, ts[1..]);
        RunCookiesGrow(src, r.next, ts[1..]);
        FirstThenRest(r, Run(src, r.next, ts[1..]).events, s.cookie);
      }
    }
  }

  lemma FirstThenRest(r: StepResult, rest: seq<Event>, c: u32)
    requires CookiesGrow(rest) && (r.sent.Some? ==> r.sent.value.hdr.cookie == c)
    requires r.sent.Some? ==> forall i :: 0 <= i < |rest| && rest[i].Sent? ==> c < rest[i].msg.hdr.cookie
    ensures CookiesGrow(EventsOf(r) + rest)
  {
    var first := EventsOf(r);
    var es := first + rest;
    forall i, j | 0 <= i < j < |es| && es[i].Sent? && es[j].Sent?
      ensures es[i].msg.hdr.cookie < es[j].msg.hdr.cookie
    {
      if i >= |first| { assert es[i] == rest[i - |first|] && es[j] == rest[j - |first|]; }
    }
  }

  // ------------------------------------------------------------ the loop itself

  /** xferdata together with the locals of netboot_xfer. `ptr` and `avail` are the
      buffer cursor; for a file `ptr` is the stdio position and `avail` is unused. */
  class Transfer {
    const src: Source
    var ptr: nat
    var avail: nat
    var currentPos: nat
    var arg: u32
    var cookie: u32
    var log: seq<Event>

    ghost predicate Valid()
      reads this
    {
      src.inMemory ==> ptr <= |src.bytes| && avail == |src.bytes| - ptr
    }

    ghost function View(): Sender
      reads this
    {
      Sender(ptr, currentPos, arg, cookie)
    }

    /** The state after NB_SEND_FILE has been answered. */
    constructor (src: Source, cookie: u32)
      ensures this.src == src && Valid() && View() == Sender(0, 0, 0, cookie) && log == []
    {
      this.src := src;
      ptr, avail := 0, |src.bytes|;
      currentPos, arg, this.cookie := 0, 0, cookie;
      log := [];
    }

    method XRead(t: Turn) returns (r: Option<nat>, data: seq<byte>)
      requires Valid()
      modifies this`ptr, this`avail
      ensures Valid() && r == XReadCount(src, old(ptr), t)
      ensures r.Some? ==> ptr == old(ptr) + r.value && (r.value > 0 ==> data == src.bytes[old(ptr)..ptr])
      ensures r.Some? && r.value == 0 ==> data == []
    {
      if src.inMemory {
        var len := PAYLOAD_SIZE;
        if len > avail { len := avail; }
        data := src.bytes[ptr..ptr + len];
        avail := avail - len;
        ptr := ptr + len;
        r := Some(len);
      } else {
        r, data := XReadCount(src, ptr, t), [];
        if r.Some? && r.value > 0 {
          data := src.bytes[ptr..ptr + r.value];
          ptr := ptr + r.value;
        }
      }
    }

    method XSeek(off: nat) returns (ok: bool)
      requires Valid()
      modifies this`ptr, this`avail
      ensures Valid() && ok == !(src.inMemory && off > |src.bytes|)
      ensures ptr == if ok then off else old(ptr)
    {
      if src.inMemory {
        if off > |src.bytes| { return false; }
        avail := |src.bytes| - off;
      }
      ptr := off;
      return true;
    }

    /** One turn of the do-while loop in netboot_xfer. */
    method TakeTurn(t: Turn) returns (o: Outcome)
      requires Valid() && InStep(src, View())
      modifies this
      ensures Valid()
      ensures var r := Step(src, old(View()), t);
              && o == r.outcome
              && log == old(log) + EventsOf(r)
              && (o != Aborted ==> View() == r.next)
    {
      var r, data := XRead(t);
      if r.None? { return Aborted; }
      var msg: Option<Message> := None;
      if r.value != 0 {
        var cmd := if currentPos + r.value >= |src.bytes| then NB_LAST_DATA else NB_DATA;
        msg := Some(Message(Header(NB_MAGIC, cookie, cmd, arg), data));
        cookie := U32(cookie + 1);
      }
      var io := Io(msg, t);
      if io.IoFailed? { return Aborted; }
      if io.sent.Some? { log := log + [Sent(io.sent.value)]; }
      o := Obey(r.value, io.ack);
    }

    /** The reply handling at the end of a turn that read `r` bytes. */
    method Obey(r: nat, ack: Header) returns (o: Outcome)
      requires Valid()
      modifies this
      ensures Valid() && cookie == old(cookie)
      ensures log == old(log) + if o == Continue && IsNack(ack) then [Rewind(ack.arg)] else []
      ensures o == if IsNack(ack) then (if src.inMemory && ack.arg > |src.bytes| then Aborted else Continue)
                   else if ack.cmd == NB_FILE_RECEIVED then Completed else Continue
      ensures o != Aborted ==>
                if IsNack(ack) then ptr == currentPos == arg == ack.arg
                else ptr == old(ptr) && currentPos == old(currentPos) + r && arg == U32(currentPos)
    {
      o := Continue;
      if ack.cookie > 0 && ack.cmd == NB_ACK {
        if ack.arg != currentPos {
          currentPos := ack.arg;
        }
        var ok := XSeek(currentPos);
        if !ok { return Aborted; }
        log := log + [Rewind(currentPos)];
      } else if ack.cmd == NB_FILE_RECEIVED {
        currentPos := currentPos + r;
        o := Completed;
      } else {
        currentPos := currentPos + r;
      }
      arg := U32(currentPos);
    }

    /** The loop, for as many turns as `ts` describes. Whatever the replies were, every packet it
        sent is faithful, and on a writable socket the packets are contiguous between rewinds. */
    method SendLoop(ts: seq<Turn>) returns (o: Outcome)
      requires src.Valid() && Valid() && InStep(src, View()) && log == []
      modifies this
      ensures var run := Run(src, old(View()), ts);
              && o == run.outcome
              && log == run.events
              && (o != Aborted ==> View() == run.end && InStep(src, View()))
      ensures forall e :: e in log && e.Sent? ==> Faithful(src, e.msg)
      ensures (forall t :: t in ts ==> t.writable) ==> Frontier(old(ptr), log).Some?
      ensures old(cookie) + |ts| < 0x1_0000_0000 ==> CookiesGrow(log)
    {
      ghost var s0 := View();
      var i := 0;
      o := Continue;
      while i < |ts| && o == Continue
        invariant 0 <= i <= |ts| && Valid()
        invariant o != Aborted ==> InStep(src, View())
        invariant RunResult(if o == Aborted then Run(src, s0, ts[..i]).end else View(), log, o) == Run(src, s0, ts[..i])
      {
        ghost var s := View();
        StepKeepsInStep(src, s, ts[i]);
        o := TakeTurn(ts[i]);
        RunSnoc(src, s0, ts[..i], ts[i]);
        assert ts[..i] + [ts[i]] == ts[..i + 1];
        i := i + 1;
      }
      if o == Continue { assert ts[..i] == ts; } else { RunStopped(src, s0, ts, i); }
      RunIsFaithful(src, s0, ts);
      if forall t :: t in ts ==> t.writable { RunIsContiguous(src, s0, ts); }
      if s0.cookie + |ts| < 0x1_0000_0000 { RunCookiesGrow(src, s0, ts); }
    }
  }
}
