/** The target side of the transfer (`bootloader_recv` in src/bringup/bin/netsvc/netboot.cc)
    and the whole system: sender, receiver, and a network that may lose, repeat and
    reorder packets in both directions. */
module NetbootReceiver {
  import opened Basics
  import opened NetbootSender

  /** `nbfile`: the first `offset` bytes of `data` have been received. */
  datatype NbFile = NbFile(data: seq<byte>, offset: nat)

  /** The statics of netboot.cc that the transfer uses. */
  datatype Receiver = Receiver(lastCookie: u32, lastCmd: u32, lastArg: u32,
                               lastAckCmd: u32, lastAckArg: u32, active: Option<NbFile>)

  datatype Reaction = Reaction(next: Receiver, reply: Option<Header>)

  predicate Repeats(r: Receiver, h: Header) {
    r.lastCookie == h.cookie && r.lastCmd == h.cmd && r.lastArg == h.arg
  }

  function Remember(r: Receiver, h: Header, ackCmd: u32, ackArg: u32): Receiver {
    Receiver(h.cookie, h.cmd, h.arg, ackCmd, ackArg, r.active)
  }

  function Answer(r: Receiver, h: Header, ackCmd: u32, ackArg: u32, transmit: bool): Reaction {
    Reaction(Remember(r, h, ackCmd, ackArg),
             if transmit then Some(Header(NB_MAGIC, h.cookie, ackCmd, ackArg)) else None)
  }

  /** Handling of one packet. `granted` is whether netboot_get_buffer knows the file name
      and could map a buffer of the size asked for. */
  function Receive(r: Receiver, m: Message, granted: bool): Reaction {
    var h := m.hdr;
    if Repeats(r, h) then
      // the host must have missed the ack
      Reaction(r, Some(Header(NB_MAGIC, r.lastCookie, r.lastAckCmd, r.lastAckArg)))
    else if h.cmd == NB_SEND_FILE then
      if m.data == [] then Reaction(r, None)
      else if granted then
        Answer(r.(active := Some(NbFile(seq(h.arg, _ => 0), 0))), h, NB_ACK, h.arg, true)
      else
        Answer(r.(active := None), h, NB_ERROR_BAD_FILE, 0, true)
    else if h.cmd == NB_DATA || h.cmd == NB_LAST_DATA then
      if r.active.None? then Reaction(r, None)
      else
        var f := r.active.value;
        if h.arg != f.offset then
          Answer(r, h, NB_ACK, U32(f.offset), true)
        else if f.offset + |m.data| > |f.data| then
          Answer(r, h, NB_ERROR_TOO_LARGE, h.arg, true)
        else
          var f' := NbFile(f.data[..f.offset] + m.data + f.data[f.offset + |m.data|..], f.offset + |m.data|);
          var last := h.cmd == NB_LAST_DATA;
          Answer(r.(active := Some(f')), h, if last then NB_FILE_RECEIVED else NB_ACK, 0, last)
    else
      Answer(r, h, NB_ACK, 0, false)
  }

  ghost predicate Within(f: NbFile) { f.offset <= |f.data| }

  /** Whatever packet arrives, the target stays in its buffer and keeps what it has received, unless a file is
      opened anew; it takes a packet only at its offset, and refuses one that does not fit. */
  lemma ReceiveStaysWithin(r: Receiver, m: Message, granted: bool)
    requires r.active.Some? && Within(r.active.value) && m.hdr.cmd != NB_SEND_FILE
    ensures var f, x := r.active.value, Receive(r, m, granted);
            && x.next.active.Some?
            && var f' := x.next.active.value;
               && Within(f') && |f'.data| == |f.data| && f'.offset >= f.offset
               && f'.data[..f.offset] == f.data[..f.offset] && f'.data[f'.offset..] == f.data[f'.offset..]
               && f'.data[f.offset..f'.offset] == (if f' == f then [] else m.data)
    ensures var f := r.active.value;
            (m.hdr.cmd == NB_DATA || m.hdr.cmd == NB_LAST_DATA) && !Repeats(r, m.hdr) && m.hdr.arg == f.offset && f.offset + |m.data| > |f.data| ==>
              var x := Receive(r, m, granted); x.next.active == r.active && x.reply.Some? && x.reply.value.cmd == NB_ERROR_TOO_LARGE
  {
    var f, f' := r.active.value, Receive(r, m, granted).next.active.value;
    if f' != f {
      assert f'.data[..f.offset] == f.data[..f.offset];
      assert f'.data[f'.offset..] == f.data[f'.offset..];
      assert f'.data[f.offset..f'.offset] == m.data;
    }
  }

  /** A repeated data packet that had been accepted is answered with NB_ACK and argument 0,
      which the host takes for a request to start over. */
  lemma RepeatedDataAsksForRestart(r: Receiver, m: Message, granted: bool)
    requires m.hdr.cmd == NB_DATA && !Repeats(r, m.hdr) && r.active.Some?
    requires m.hdr.arg == r.active.value.offset
    requires r.active.value.offset + |m.data| <= |r.active.value.data|
    ensures var first := Receive(r, m, granted);
            var second := Receive(first.next, m, granted);
            && first.reply == None
            && second.next == first.next
            && second.reply == Some(Header(NB_MAGIC, m.hdr.cookie, NB_ACK, 0))
  {
  }
}

module NetbootSystem {
  import opened Basics
  import opened NetbootSender
  import opened NetbootReceiver

  datatype Phase = Idle(openCookie: u32) | Opening(openCookie: u32) | Sending(s: Sender) | Succeeded | Failed

  /** `toTarget` and `toHost` hold every packet ever sent in that direction: a packet may be
      delivered never, once or many times, and in any order. */
  datatype System = System(phase: Phase, target: Receiver, toTarget: set<Message>, toHost: set<Header>)

  datatype Action =
    | Open                                          // send NB_SEND_FILE
    | OpenReply(reply: Option<Header>)              // io_rcv after it
    | HostTurn(t: Turn)                             // one turn of the send loop
    | Deliver(m: Message, granted: bool)            // the target handles a packet

  function OpenMessage(src: Source, name: seq<byte>, cookie: u32): Message
    requires src.Valid()
  {
    Message(Header(NB_MAGIC, cookie, NB_SEND_FILE, |src.bytes|), name + [0])
  }

  predicate Enabled(src: Source, st: System, a: Action) {
    match a
    case Open => st.phase.Idle?
    case OpenReply(h) => st.phase.Opening? && (h.Some? ==> h.value in st.toHost)
    case HostTurn(t) => st.phase.Sending? && (t.reply.Some? ==> t.reply.value in st.toHost)
    case Deliver(m, _) => m in st.toTarget
  }

  function Apply(src: Source, name: seq<byte>, st: System, a: Action): System
    requires src.Valid()
  {
    match a
    case Open =>
      if !st.phase.Idle? then st
      else
        var c := st.phase.openCookie;
        System(Opening(c), st.target, st.toTarget + {OpenMessage(src, name, c)}, st.toHost)
    case OpenReply(h) =>
      if st.phase.Opening? && h.Some? && HandedOn(h.value, Some(st.phase.openCookie))
      then st.(phase := Sending(Sender(0, 0, 0, U32(st.phase.openCookie + 1))))
      else st.(phase := Failed)
    case HostTurn(t) =>
      if !st.phase.Sending? then st
      else
        var r := Step(src, st.phase.s, t);
        System(match r.outcome case Continue => Sending(r.next) case Completed => Succeeded case Aborted => Failed,
               st.target,
               if r.sent.Some? then st.toTarget + {r.sent.value} else st.toTarget,
               st.toHost)
    case Deliver(m, granted) =>
      var r := Receive(st.target, m, granted);
      System(st.phase, r.next, st.toTarget,
             if r.reply.Some? then st.toHost + {r.reply.value} else st.toHost)
  }

  /** The state after all of `acts`; None when one of them was not enabled. */
  ghost function Exec(src: Source, name: seq<byte>, st: System, acts: seq<Action>): Option<System>
    requires src.Valid()
    decreases |acts|
  {
    if acts == [] then Some(st)
    else
      var before := Exec(src, name, st, acts[..|acts| - 1]);
      var a := acts[|acts| - 1];
      if before.Some? && Enabled(src, before.value, a) then Some(Apply(src, name, before.value, a)) else None
  }

  /** The receiver state that handling NB_SEND_FILE for this source leaves behind. */
  ghost predicate JustOpened(src: Source, r: Receiver) {
    && (r.active.Some? ==> HoldsPrefix(src, r.active.value))
    && (r.lastAckCmd == NB_ACK || r.lastAckCmd == NB_ERROR_BAD_FILE)
    && r.lastAckArg <= |src.bytes|
  }

  /** A transfer about to start: no packet of it is under way. The target is in any state left
      over from earlier transfers, except that if it would take the coming NB_SEND_FILE for a
      repetition, it must really have opened a file of this size for it. */
  ghost predicate Initial(src: Source, name: seq<byte>, st: System)
    requires src.Valid()
  {
    && st.phase.Idle?
    && st.toTarget == {} && st.toHost == {}
    && (Repeats(st.target, OpenMessage(src, name, st.phase.openCookie).hdr) ==> JustOpened(src, st.target))
  }

  /** The target holds the whole source. */
  ghost predicate Whole(src: Source, st: System) {
    && st.target.active.Some?
    && st.target.active.value.data == src.bytes
    && st.target.active.value.offset == |src.bytes|
  }

  /** Delivery of NB_SEND_FILE that the target does not recognise as a repetition. */
  predicate Reopens(st: System, a: Action) {
    a.Deliver? && a.m.hdr.cmd == NB_SEND_FILE && !Repeats(st.target, a.m.hdr)
  }

  // ------------------------------------------------------- inductive invariant

  /** What the target has is a prefix of the source. */
  ghost predicate HoldsPrefix(src: Source, f: NbFile) {
    && |f.data| == |src.bytes|
    && f.offset <= |src.bytes|
    && f.data[..f.offset] == src.bytes[..f.offset]
  }

  ghost predicate PacketOk(src: Source, m: Message) {
    || (m.hdr.cmd == NB_SEND_FILE && m.hdr.arg == |src.bytes| && m.data != [])
    || Faithful(src, m)
  }

  ghost predicate ReplyOk(src: Source, h: Header) {
    && h.magic == NB_MAGIC
    && (h.cmd == NB_ACK || h.cmd == NB_FILE_RECEIVED || h.cmd == NB_ERROR_BAD_FILE)
    && h.arg <= |src.bytes|
    && (h.cmd == NB_FILE_RECEIVED ==> src.bytes != [])
  }

  ghost predicate TargetOk(src: Source, r: Receiver) {
    && (r.active.Some? ==> HoldsPrefix(src, r.active.value))
    && ReplyOk(src, Header(NB_MAGIC, r.lastCookie, r.lastAckCmd, r.lastAckArg))
  }

  ghost predicate Inv(src: Source, st: System)
    requires src.Valid()
  {
    && (forall m :: m in st.toTarget ==> PacketOk(src, m))
    && (forall h :: h in st.toHost ==> ReplyOk(src, h))
    && (st.phase.Sending? ==> InStep(src, st.phase.s) && st.phase.s.pos <= |src.bytes|)
    // before the target has answered, only NB_SEND_FILE is under way
    && (st.toHost == {} ==>
          && (st.phase.Idle? || st.phase.Opening? || st.phase.Failed?)
          && (forall m :: m in st.toTarget ==>
                m.hdr.cmd == NB_SEND_FILE && (Repeats(st.target, m.hdr) ==> JustOpened(src, st.target)))
          && (st.phase.Idle? ==>
                (Repeats(st.target, Header(NB_MAGIC, st.phase.openCookie, NB_SEND_FILE, |src.bytes|)) ==> JustOpened(src, st.target))))
    && (st.phase.Idle? ==> st.toHost == {} && st.toTarget == {})
    && (st.toHost != {} ==> TargetOk(src, st.target))
  }

  lemma InitialInv(src: Source, name: seq<byte>, st: System)
    requires src.Valid() && Initial(src, name, st)
    ensures Inv(src, st)
  {
  }

  lemma ReceiveFirst(src: Source, r: Receiver, m: Message, granted: bool)
    requires src.Valid()
    requires m.hdr.cmd == NB_SEND_FILE && m.hdr.arg == |src.bytes| && m.data != []
    requires !Repeats(r, m.hdr)
    ensures var x := Receive(r, m, granted);
            && x.reply.Some? && ReplyOk(src, x.reply.value) && TargetOk(src, x.next)
  {
  }

  lemma ReceiveData(src: Source, r: Receiver, m: Message, granted: bool)
    requires src.Valid() && TargetOk(src, r) && Faithful(src, m)
    ensures var x := Receive(r, m, granted);
            && TargetOk(src, x.next)
            && (x.reply.Some? ==> ReplyOk(src, x.reply.value))
  {
    if !Repeats(r, m.hdr) && r.active.Some? && m.hdr.arg == r.active.value.offset {
      var f := r.active.value;
      var f' := Receive(r, m, granted).next.active.value;
      assert f'.data[..f'.offset] == f.data[..f.offset] + m.data;
      assert src.bytes[..f'.offset] == src.bytes[..f.offset] + src.bytes[f.offset..f'.offset];
    }
  }

  lemma ApplyKeepsInv(src: Source, name: seq<byte>, st: System, a: Action)
    requires src.Valid() && Inv(src, st) && Enabled(src, st, a)
    ensures Inv(src, Apply(src, name, st, a))
  {
    match a
    case Open =>
    case OpenReply(h) =>
    case HostTurn(t) => StepKeepsInStep(src, st.phase.s, t);
    case Deliver(m, granted) =>
      if m.hdr.cmd == NB_SEND_FILE {
        if !Repeats(st.target, m.hdr) { ReceiveFirst(src, st.target, m, granted); }
      } else {
        ReceiveData(src, st.target, m, granted);
      }
  }

  // ------------------------------------------------------------ the theorems

  lemma {:induction false} ExecKeepsInv(src: Source, name: seq<byte>, st: System, acts: seq<Action>)
    requires src.Valid() && Initial(src, name, st) && Exec(src, name, st, acts).Some?
    ensures Inv(src, Exec(src, name, st, acts).value)
    decreases |acts|
  {
    if acts == [] {
      InitialInv(src, name, st);
    } else {
      var prefix := acts[..|acts| - 1];
      ExecKeepsInv(src, name, st, prefix);
      ApplyKeepsInv(src, name, Exec(src, name, st, prefix).value, acts[|acts| - 1]);
    }
  }

  /** In every run, once the target has answered, what it holds is a prefix of the source;
      it never rejects a packet as too large, so the only refusal it ever sends is of the file name. */
  lemma TargetHoldsPrefix(src: Source, name: seq<byte>, st: System, acts: seq<Action>)
    requires src.Valid() && Initial(src, name, st) && Exec(src, name, st, acts).Some?
    ensures var end := Exec(src, name, st, acts).value;
            && (end.toHost != {} && end.target.active.Some? ==> HoldsPrefix(src, end.target.active.value))
            && (end.phase.Sending? ==> end.toHost != {})
            && (forall h :: h in end.toHost ==> h.cmd == NB_ACK || h.cmd == NB_FILE_RECEIVED || h.cmd == NB_ERROR_BAD_FILE)
  {
    ExecKeepsInv(src, name, st, acts);
  }

  /** Somebody has said that the file was received. */
  ghost predicate Claimed(st: System) {
    || st.phase.Succeeded?
    || (exists h :: h in st.toHost && h.cmd == NB_FILE_RECEIVED)
    || (st.toHost != {} && st.target.lastAckCmd == NB_FILE_RECEIVED)
  }

  lemma HoldsAllIsWhole(src: Source, f: NbFile)
    requires HoldsPrefix(src, f) && f.offset == |src.bytes|
    ensures f.data == src.bytes
  {
    assert f.data == f.data[..f.offset];
    assert src.bytes == src.bytes[..f.offset];
  }

  /** The claim is first made in a state where it is true. */
  lemma ClaimIsTrueWhenMade(src: Source, name: seq<byte>, st: System, a: Action)
    requires src.Valid() && Inv(src, st) && Enabled(src, st, a)
    requires !Claimed(st) && Claimed(Apply(src, name, st, a))
    ensures Whole(src, Apply(src, name, st, a)) && Apply(src, name, st, a).toHost != {}
    ensures src.bytes != []
  {
    var st' := Apply(src, name, st, a);
    ApplyKeepsInv(src, name, st, a);
    match a
    case Open =>
    case OpenReply(h) =>
    case HostTurn(t) =>
    case Deliver(m, granted) =>
      assert st'.target.lastAckCmd == NB_FILE_RECEIVED;
      HoldsAllIsWhole(src, st'.target.active.value);
  }

  ghost predicate WholeAt(src: Source, name: seq<byte>, st: System, acts: seq<Action>, k: nat)
    requires src.Valid()
  {
    k <= |acts| && var at := Exec(src, name, st, acts[..k]); at.Some? && at.value.toHost != {} && Whole(src, at.value)
  }

  lemma {:induction false} ClaimedOnlyAfterWhole(src: Source, name: seq<byte>, st: System, acts: seq<Action>) returns (k: nat)
    requires src.Valid() && Initial(src, name, st) && Exec(src, name, st, acts).Some?
    requires Claimed(Exec(src, name, st, acts).value)
    ensures WholeAt(src, name, st, acts, k) && src.bytes != []
    decreases |acts|
  {
    var prefix := acts[..|acts| - 1];
    var before := Exec(src, name, st, prefix).value;
    if Claimed(before) {
      k := ClaimedOnlyAfterWhole(src, name, st, prefix);
      assert acts[..k] == prefix[..k];
    } else {
      ExecKeepsInv(src, name, st, prefix);
      ClaimIsTrueWhenMade(src, name, before, acts[|acts| - 1]);
      k := |acts|;
      assert acts[..k] == acts;
    }
  }

  /** A complete target stays complete through every action except one: handling NB_SEND_FILE anew. */
  lemma WholeSurvivesUnlessReopened(src: Source, name: seq<byte>, st: System, a: Action)
    requires src.Valid() && Inv(src, st) && Enabled(src, st, a)
    requires Whole(src, st) && src.bytes != [] && st.toHost != {}
    ensures Whole(src, Apply(src, name, st, a)) <==> !Reopens(st, a)
  {
  }

  ghost predicate ReopenedAfter(src: Source, name: seq<byte>, st: System, acts: seq<Action>, k: nat)
    requires src.Valid()
  {
    exists i :: k <= i < |acts| && Exec(src, name, st, acts[..i]).Some? && Reopens(Exec(src, name, st, acts[..i]).value, acts[i])
  }

  lemma {:induction false} WholeStays(src: Source, name: seq<byte>, st: System, acts: seq<Action>, k: nat)
    requires src.Valid() && Initial(src, name, st) && Exec(src, name, st, acts).Some?
    requires src.bytes != []
    requires WholeAt(src, name, st, acts, k)
    requires !ReopenedAfter(src, name, st, acts, k)
    ensures Whole(src, Exec(src, name, st, acts).value) && Exec(src, name, st, acts).value.toHost != {}
    decreases |acts|
  {
    if k == |acts| {
      assert acts[..k] == acts;
    } else {
      var prefix := acts[..|acts| - 1];
      assert acts[..k] == prefix[..k];
      forall i | k <= i < |prefix| && Exec(src, name, st, prefix[..i]).Some?
        ensures !Reopens(Exec(src, name, st, prefix[..i]).value, prefix[i])
      {
        assert acts[..i] == prefix[..i];
      }
      WholeStays(src, name, st, prefix, k);
      ExecKeepsInv(src, name, st, prefix);
      assert acts[..|acts| - 1] == prefix;
      WholeSurvivesUnlessReopened(src, name, Exec(src, name, st, prefix).value, acts[|acts| - 1]);
    }
  }

  /** netboot_xfer returns 0 only if at some moment of the run the target held the whole source,
      and it still does unless NB_SEND_FILE was handled anew after that moment. */
  lemma SuccessMeansReceived(src: Source, name: seq<byte>, st: System, acts: seq<Action>)
    requires src.Valid() && Initial(src, name, st) && Exec(src, name, st, acts).Some?
    requires Exec(src, name, st, acts).value.phase.Succeeded?
    ensures exists k :: WholeAt(src, name, st, acts, k) &&
                        (ReopenedAfter(src, name, st, acts, k) || Whole(src, Exec(src, name, st, acts).value))
  {
    var k := ClaimedOnlyAfterWhole(src, name, st, acts);
    if !ReopenedAfter(src, name, st, acts, k) { WholeStays(src, name, st, acts, k); }
  }

  /** A source of length zero is never reported as received, so its transfer cannot succeed. */
  lemma EmptySourceNeverSucceeds(src: Source, name: seq<byte>, st: System, acts: seq<Action>)
    requires src.Valid() && Initial(src, name, st) && Exec(src, name, st, acts).Some?
    requires src.bytes == []
    ensures !Exec(src, name, st, acts).value.phase.Succeeded?
  {
    if Exec(src, name, st, acts).value.phase.Succeeded? {
      var _ := ClaimedOnlyAfterWhole(src, name, st, acts);
    }
  }

  predicate DeliversOpen(a: Action) { a.Deliver? && a.m.hdr.cmd == NB_SEND_FILE }

  lemma {:induction false} AnswerNeedsOpen(src: Source, name: seq<byte>, st: System, acts: seq<Action>) returns (j: nat)
    requires src.Valid() && Initial(src, name, st) && Exec(src, name, st, acts).Some?
    requires Exec(src, name, st, acts).value.toHost != {}
    ensures j < |acts| && DeliversOpen(acts[j])
    decreases |acts|
  {
    var prefix := acts[..|acts| - 1];
    if Exec(src, name, st, prefix).value.toHost != {} {
      j := AnswerNeedsOpen(src, name, st, prefix);
    } else {
      ExecKeepsInv(src, name, st, prefix);
      j := |acts| - 1;
    }
  }

  /** If the network delivers NB_SEND_FILE at most once, success means that the target now
      holds exactly the source, however data packets and replies were lost, repeated or reordered. */
  lemma SuccessIsCompleteIfOpenedOnce(src: Source, name: seq<byte>, st: System, acts: seq<Action>)
    requires src.Valid() && Initial(src, name, st) && Exec(src, name, st, acts).Some?
    requires Exec(src, name, st, acts).value.phase.Succeeded?
    requires forall i, j :: 0 <= i < j < |acts| ==> !(DeliversOpen(acts[i]) && DeliversOpen(acts[j]))
    ensures Whole(src, Exec(src, name, st, acts).value)
  {
    var k := ClaimedOnlyAfterWhole(src, name, st, acts);
    var j := AnswerNeedsOpen(src, name, st, acts[..k]);
    assert acts[..k][j] == acts[j];
    WholeStays(src, name, st, acts, k);
  }

  /** After success the target holds the whole source if and only if it held it at some moment after which
      NB_SEND_FILE was not handled anew. */
  lemma SuccessIsCompleteIff(src: Source, name: seq<byte>, st: System, acts: seq<Action>)
    requires src.Valid() && Initial(src, name, st) && Exec(src, name, st, acts).Some?
    requires Exec(src, name, st, acts).value.phase.Succeeded?
    ensures Whole(src, Exec(src, name, st, acts).value) <==>
            exists k: nat :: WholeAt(src, name, st, acts, k) && !ReopenedAfter(src, name, st, acts, k)
  {
    var _ := ClaimedOnlyAfterWhole(src, name, st, acts);
    if k: nat :| WholeAt(src, name, st, acts, k) && !ReopenedAfter(src, name, st, acts, k) {
      WholeStays(src, name, st, acts, k);
    }
    if Whole(src, Exec(src, name, st, acts).value) {
      ExecKeepsInv(src, name, st, acts);
      assert acts[..|acts|] == acts;
      assert WholeAt(src, name, st, acts, |acts|) && !ReopenedAfter(src, name, st, acts, |acts|);
    }
  }

  // ------------------------------------------------------------ concrete runs

  lemma ExecSnoc(src: Source, name: seq<byte>, st: System, acts: seq<Action>, a: Action)
    requires src.Valid() && Exec(src, name, st, acts).Some? && Enabled(src, Exec(src, name, st, acts).value, a)
    ensures Exec(src, name, st, acts + [a]) == Some(Apply(src, name, Exec(src, name, st, acts).value, a))
  {
    assert (acts + [a])[..|acts + [a]| - 1] == acts;
  }

  function SendingTurn(): Turn { Turn(false, PAYLOAD_SIZE, true, false, true, None, true) }

  function WaitingTurn(h: Header): Turn { Turn(false, 0, true, true, true, Some(h), true) }

  /** The sender has read everything, the target holds it, and the report is on its way. */
  ghost predicate Reported(src: Source, st: System, h: Header) {
    && st.phase.Sending? && InStep(src, st.phase.s) && st.phase.s.pos == |src.bytes|
    && Whole(src, st) && st.target.lastCmd == NB_LAST_DATA
    && h in st.toHost && h.cmd == NB_FILE_RECEIVED
  }

  /** Sender and target agree on the offset, and the target has not just seen a packet at it. */
  ghost predicate InSync(src: Source, st: System) {
    && st.phase.Sending? && InStep(src, st.phase.s) && st.phase.s.pos <= |src.bytes|
    && st.target.active.Some? && HoldsPrefix(src, st.target.active.value)
    && st.target.active.value.offset == st.phase.s.pos
    && (st.target.lastCmd == NB_SEND_FILE || st.target.lastArg < st.phase.s.pos)
  }

  lemma SendAndDeliver(src: Source, name: seq<byte>, st: System) returns (m: Message)
    requires src.Valid() && InSync(src, st) && st.phase.s.pos < |src.bytes|
    ensures var t := HostTurn(SendingTurn());
            var st1 := Apply(src, name, st, t);
            var st2 := Apply(src, name, st1, Deliver(m, true));
            && Enabled(src, st, t) && Enabled(src, st1, Deliver(m, true))
            && InSync(src, st2)
            && st2.phase.s.pos > st.phase.s.pos
            && st.toTarget <= st2.toTarget
            && (st2.phase.s.pos == |src.bytes| ==> Reported(src, st2, Header(NB_MAGIC, m.hdr.cookie, NB_FILE_RECEIVED, 0)))
  {
    var s, t := st.phase.s, SendingTurn();
    StepKeepsInStep(src, s, t);
    m := Step(src, s, t).sent.value;
    var f := st.target.active.value;
    var f' := Receive(st.target, m, true).next.active.value;
    assert f'.data[..f'.offset] == f.data[..f.offset] + m.data;
    assert src.bytes[..f'.offset] == src.bytes[..f.offset] + m.data;
    if f'.offset == |src.bytes| { HoldsAllIsWhole(src, f'); }
  }

  lemma {:induction false} ExecConcat(src: Source, name: seq<byte>, st: System, a: seq<Action>, b: seq<Action>)
    requires src.Valid() && Exec(src, name, st, a).Some?
    ensures Exec(src, name, st, a + b) == Exec(src, name, Exec(src, name, st, a).value, b)
    decreases |b|
  {
    if b == [] {
      assert a + b == a;
    } else {
      assert (a + b)[..|a + b| - 1] == a + b[..|b| - 1] && (a + b)[|a + b| - 1] == b[|b| - 1];
      ExecConcat(src, name, st, a, b[..|b| - 1]);
    }
  }

  lemma ExecTwo(src: Source, name: seq<byte>, st: System, a: Action, b: Action)
    requires src.Valid() && Enabled(src, st, a) && Enabled(src, Apply(src, name, st, a), b)
    ensures Exec(src, name, st, [a, b]) == Some(Apply(src, name, Apply(src, name, st, a), b))
  {
    ExecSnoc(src, name, st, [], a);
    assert [] + [a] == [a] && [a] + [b] == [a, b];
    ExecSnoc(src, name, st, [a], b);
  }

  /** From there a network that delivers everything once and in order gets the file across. */
  lemma {:induction false} FillInOrder(src: Source, name: seq<byte>, cur: System) returns (more: seq<Action>, h: Header)
    requires src.Valid() && InSync(src, cur) && cur.phase.s.pos < |src.bytes|
    ensures Exec(src, name, cur, more).Some?
    ensures var end := Exec(src, name, cur, more).value; Reported(src, end, h) && cur.toTarget <= end.toTarget
    decreases |src.bytes| - cur.phase.s.pos
  {
    var t := HostTurn(SendingTurn());
    var m := SendAndDeliver(src, name, cur);
    ExecTwo(src, name, cur, t, Deliver(m, true));
    var next := Apply(src, name, Apply(src, name, cur, t), Deliver(m, true));
    if next.phase.s.pos < |src.bytes| {
      var rest;
      rest, h := FillInOrder(src, name, next);
      more := [t, Deliver(m, true)] + rest;
      ExecConcat(src, name, cur, [t, Deliver(m, true)], rest);
    } else {
      more, h := [t, Deliver(m, true)], Header(NB_MAGIC, m.hdr.cookie, NB_FILE_RECEIVED, 0);
    }
  }

  // ---------------------------------------------------------- which transfers can succeed

  /** Running on from `st` by `acts` leads to `end`. */
  ghost predicate Leads(src: Source, name: seq<byte>, st: System, acts: seq<Action>, end: System)
    requires src.Valid()
  {
    Exec(src, name, st, acts) == Some(end)
  }

  lemma LeadsOn(src: Source, name: seq<byte>, st: System, a: seq<Action>, mid: System, b: seq<Action>, end: System)
    requires src.Valid() && Leads(src, name, st, a, mid) && Leads(src, name, mid, b, end)
    ensures Leads(src, name, st, a + b, end)
  {
    ExecConcat(src, name, st, a, b);
  }

  lemma LeadsOne(src: Source, name: seq<byte>, st: System, a: Action)
    requires src.Valid() && Enabled(src, st, a)
    ensures Leads(src, name, st, [a], Apply(src, name, st, a))
  {
    ExecSnoc(src, name, st, [], a);
    assert [] + [a] == [a];
  }

  /** Once the report is on its way, the host reads it and is done. */
  lemma ReadReport(src: Source, name: seq<byte>, st: System, h: Header)
    requires src.Valid() && st.phase.Sending? && InStep(src, st.phase.s) && h in st.toHost && h.cmd == NB_FILE_RECEIVED
    ensures var a := HostTurn(WaitingTurn(h));
            Enabled(src, st, a) && Apply(src, name, st, a).phase.Succeeded? && Apply(src, name, st, a).target == st.target
  {
  }

  /** The opening packet of this transfer. */
  ghost predicate IsOpening(src: Source, m: Message) {
    m.hdr.cmd == NB_SEND_FILE && m.hdr.arg == |src.bytes| && m.data != []
  }

  /** The host is sending, and a copy of the opening packet can still arrive. */
  ghost predicate Underway(src: Source, st: System, open: Message)
    requires src.Valid()
  {
    Inv(src, st) && st.phase.Sending? && st.toHost != {} && IsOpening(src, open) && open in st.toTarget
  }

  /** Handling the opening packet anew empties the target's buffer. */
  lemma Reopened(src: Source, name: seq<byte>, st: System, open: Message)
    requires src.Valid() && Underway(src, st, open) && !Repeats(st.target, open.hdr)
    ensures var next := Apply(src, name, st, Deliver(open, true));
            && Enabled(src, st, Deliver(open, true)) && Underway(src, next, open) && next.phase == st.phase
            && next.target.active.Some? && next.target.active.value.offset == 0 && Repeats(next.target, open.hdr)
            && st.toTarget <= next.toTarget && st.toHost <= next.toHost
  {
    ApplyKeepsInv(src, name, st, Deliver(open, true));
  }

  /** With both sides at the start the file can be sent, in a run that ends with the report on its way. */
  lemma SendFromStart(src: Source, name: seq<byte>, st: System, open: Message) returns (acts: seq<Action>, end: System, h: Header)
    requires src.Valid() && Underway(src, st, open) && src.bytes != [] && st.phase.s.pos == 0
    requires st.target.active.Some? && st.target.active.value.offset == 0 && Repeats(st.target, open.hdr)
    ensures Leads(src, name, st, acts, end) && Reported(src, end, h) && open in end.toTarget
  {
    assert st.target.active.value.data[..0] == src.bytes[..0];
    acts, h := FillInOrder(src, name, st);
    end := Exec(src, name, st, acts).value;
  }

  /** The target takes what it is given at its offset. */
  lemma Accepted(src: Source, name: seq<byte>, st: System, open: Message, d: Message)
    requires src.Valid() && Underway(src, st, open) && d in st.toTarget && Faithful(src, d)
    requires st.target.active.Some? && Repeats(st.target, open.hdr) && d.hdr.arg == st.target.active.value.offset
    ensures var next := Apply(src, name, st, Deliver(d, true));
            && Enabled(src, st, Deliver(d, true)) && Underway(src, next, open) && next.phase == st.phase && Repeats(next.target, d.hdr)
            && st.toTarget <= next.toTarget
            && next.target.active.Some? && HoldsPrefix(src, next.target.active.value)
            && next.target.active.value.offset == d.hdr.arg + |d.data|
            && (d.hdr.cmd == NB_LAST_DATA ==> Whole(src, next) && Header(NB_MAGIC, d.hdr.cookie, NB_FILE_RECEIVED, 0) in next.toHost)
            && (d.hdr.cmd == NB_DATA ==> next.target.lastAckCmd == NB_ACK && next.target.lastAckArg == 0)
  {
    ApplyKeepsInv(src, name, st, Deliver(d, true));
    var next := Apply(src, name, st, Deliver(d, true));
    if d.hdr.cmd == NB_LAST_DATA { HoldsAllIsWhole(src, next.target.active.value); }
  }

  /** The target asks for its offset when it is given something else. */
  lemma Nacked(src: Source, name: seq<byte>, st: System, open: Message, d: Message)
    requires src.Valid() && Underway(src, st, open) && d in st.toTarget && Faithful(src, d)
    requires st.target.active.Some? && Repeats(st.target, open.hdr) && d.hdr.arg != st.target.active.value.offset
    ensures var next := Apply(src, name, st, Deliver(d, true));
            && Enabled(src, st, Deliver(d, true)) && Underway(src, next, open) && next.phase == st.phase && Repeats(next.target, d.hdr)
            && st.toTarget <= next.toTarget && next.target.active == st.target.active
            && Header(NB_MAGIC, d.hdr.cookie, NB_ACK, st.target.active.value.offset) in next.toHost
  {
    ApplyKeepsInv(src, name, st, Deliver(d, true));
  }

  /** A request to go back, obeyed. */
  lemma Rewound(src: Source, name: seq<byte>, st: System, open: Message, h: Header)
    requires src.Valid() && Underway(src, st, open) && h in st.toHost && IsNack(h)
    ensures var a := HostTurn(WaitingTurn(h));
            var next := Apply(src, name, st, a);
            && Enabled(src, st, a) && Underway(src, next, open) && next.phase.s.pos == h.arg && next.target == st.target
            && next.phase.s.cookie in {st.phase.s.cookie, U32(st.phase.s.cookie + 1)}
            && st.toTarget <= next.toTarget
  {
    ApplyKeepsInv(src, name, st, HostTurn(WaitingTurn(h)));
  }

  /** With a data packet at hand, and a target that has just been opened, the host can be made to start over. */
  lemma AskForStart(src: Source, name: seq<byte>, st: System, open: Message, d: Message) returns (acts: seq<Action>, end: System, h: Header)
    requires src.Valid() && Underway(src, st, open) && d in st.toTarget && Faithful(src, d) && d.hdr.cookie > 0
    requires st.target.active.Some? && st.target.active.value.offset == 0 && Repeats(st.target, open.hdr)
    ensures Leads(src, name, st, acts, end) && Underway(src, end, open) && h in end.toHost && !Repeats(end.target, open.hdr)
    ensures (h.cmd == NB_FILE_RECEIVED && Whole(src, end)) || (IsNack(h) && h.arg == 0)
  {
    var a := Deliver(d, true);
    var next := Apply(src, name, st, a);
    if d.hdr.arg != 0 {
      Nacked(src, name, st, open, d);
      LeadsOne(src, name, st, a);
      acts, end, h := [a], next, Header(NB_MAGIC, d.hdr.cookie, NB_ACK, 0);
    } else {
      Accepted(src, name, st, open, d);
      LeadsOne(src, name, st, a);
      if d.hdr.cmd == NB_LAST_DATA {
        acts, end, h := [a], next, Header(NB_MAGIC, d.hdr.cookie, NB_FILE_RECEIVED, 0);
      } else {
        ApplyKeepsInv(src, name, next, a);
        LeadsOne(src, name, next, a);
        end := Apply(src, name, next, a);
        LeadsOn(src, name, st, [a], next, [a], end);
        acts, h := [a] + [a], Header(NB_MAGIC, d.hdr.cookie, NB_ACK, 0);
      }
    }
  }

  /** The end of a run that delivers the file. */
  ghost predicate Delivered(src: Source, st: System) { st.phase.Succeeded? && Whole(src, st) }

  lemma FinishFromStart(src: Source, name: seq<byte>, st: System, open: Message) returns (acts: seq<Action>, end: System)
    requires src.Valid() && Underway(src, st, open) && src.bytes != [] && st.phase.s.pos == 0
    requires st.target.active.Some? && st.target.active.value.offset == 0 && Repeats(st.target, open.hdr)
    ensures Leads(src, name, st, acts, end) && Delivered(src, end)
  {
    var fill, full, h := SendFromStart(src, name, st, open);
    ReadReport(src, name, full, h);
    LeadsOne(src, name, full, HostTurn(WaitingTurn(h)));
    end := Apply(src, name, full, HostTurn(WaitingTurn(h)));
    LeadsOn(src, name, st, fill, full, [HostTurn(WaitingTurn(h))], end);
    acts := fill + [HostTurn(WaitingTurn(h))];
  }

  /** The target would handle the opening packet anew, or has a file open. */
  predicate CanAccept(st: System, open: Message) { st.target.active.Some? || !Repeats(st.target, open.hdr) }

  /** Brings the target to where it would handle the opening packet anew. */
  lemma Unrepeat(src: Source, name: seq<byte>, st: System, open: Message, d: Message) returns (acts: seq<Action>, end: System)
    requires src.Valid() && Underway(src, st, open) && CanAccept(st, open) && d in st.toTarget && Faithful(src, d)
    ensures Leads(src, name, st, acts, end) && Underway(src, end, open) && !Repeats(end.target, open.hdr) && d in end.toTarget
  {
    if !Repeats(st.target, open.hdr) {
      acts, end := [], st;
    } else {
      acts, end := [Deliver(d, true)], Apply(src, name, st, Deliver(d, true));
      LeadsOne(src, name, st, Deliver(d, true));
      if d.hdr.arg == st.target.active.value.offset { Accepted(src, name, st, open, d); } else { Nacked(src, name, st, open, d); }
    }
  }

  /** From any such state, a data packet under way is enough to bring the transfer to a good end: the target is
      opened anew, the packet makes it ask for the start, and with both sides there the file is sent. */
  lemma RecoverWith(src: Source, name: seq<byte>, st: System, open: Message, d: Message) returns (acts: seq<Action>, end: System)
    requires src.Valid() && Underway(src, st, open) && CanAccept(st, open) && src.bytes != []
    requires d in st.toTarget && Faithful(src, d) && d.hdr.cookie > 0
    ensures Leads(src, name, st, acts, end) && Delivered(src, end)
  {
    var a1, st1 := Unrepeat(src, name, st, open, d);
    Reopened(src, name, st1, open);
    LeadsOne(src, name, st1, Deliver(open, true));
    var st2 := Apply(src, name, st1, Deliver(open, true));
    LeadsOn(src, name, st, a1, st1, [Deliver(open, true)], st2);
    var a3, st3, h := AskForStart(src, name, st2, open, d);
    LeadsOn(src, name, st, a1 + [Deliver(open, true)], st2, a3, st3);
    var so := a1 + [Deliver(open, true)] + a3;
    var a4, st4 := AnswerAsked(src, name, st3, open, h);
    LeadsOn(src, name, st, so, st3, a4, st4);
    acts, end := so + a4, st4;
  }

  /** The host reads what AskForStart has brought about. */
  lemma AnswerAsked(src: Source, name: seq<byte>, st: System, open: Message, h: Header) returns (acts: seq<Action>, end: System)
    requires src.Valid() && Underway(src, st, open) && src.bytes != [] && h in st.toHost && !Repeats(st.target, open.hdr)
    requires (h.cmd == NB_FILE_RECEIVED && Whole(src, st)) || (IsNack(h) && h.arg == 0)
    ensures Leads(src, name, st, acts, end) && Delivered(src, end)
  {
    var t := HostTurn(WaitingTurn(h));
    if h.cmd == NB_FILE_RECEIVED {
      ReadReport(src, name, st, h);
      LeadsOne(src, name, st, t);
      acts, end := [t], Apply(src, name, st, t);
    } else {
      Rewound(src, name, st, open, h);
      LeadsOne(src, name, st, t);
      var back := Apply(src, name, st, t);
      Reopened(src, name, back, open);
      LeadsOne(src, name, back, Deliver(open, true));
      var anew := Apply(src, name, back, Deliver(open, true));
      LeadsOn(src, name, st, [t], back, [Deliver(open, true)], anew);
      var more;
      more, end := FinishFromStart(src, name, anew, open);
      LeadsOn(src, name, st, [t] + [Deliver(open, true)], anew, more, end);
      acts := [t] + [Deliver(open, true)] + more;
    }
  }

  ghost predicate IsData(m: Message) { m.hdr.cmd == NB_DATA || m.hdr.cmd == NB_LAST_DATA }

  /** Some data packet is under way. */
  ghost predicate HasData(st: System) { exists m :: m in st.toTarget && IsData(m) }

  ghost predicate HasReport(st: System) { exists h :: h in st.toHost && h.cmd == NB_FILE_RECEIVED }

  /** Some reply under way makes the host go back to before the end. */
  ghost predicate HasLowNack(src: Source, st: System) { exists h :: h in st.toHost && IsNack(h) && h.arg < |src.bytes| }

  /** What host, network and target have between them, as long as the 32-bit cookie has not wrapped around in
      `n` actions: everything sent is the opening packet or data, with a cookie that is not 0 and below the
      next one, and so is the cookie the target saw last; an opening
      packet that was the last thing handled was not answered with the report; and before any data was
      sent, it was the last thing handled, and its answer is under way. */
  ghost predicate Traffic(src: Source, name: seq<byte>, c: u32, n: nat, st: System)
    requires src.Valid()
  {
    var open := OpenMessage(src, name, c);
    && (forall m :: m in st.toTarget ==> m.hdr.cookie > 0 && (m == open || IsData(m)))
    && (st.phase.Idle? || st.phase.Opening? ==> st.phase.openCookie == c)
    && (!st.phase.Idle? ==> open in st.toTarget)
    && (st.phase.Idle? || st.phase.Opening? ==> !HasData(st))
    && (st.phase.Sending? ==>
          && 0 < st.phase.s.cookie <= c + 1 + n
          && st.target.lastCookie < st.phase.s.cookie
          && (forall m :: m in st.toTarget ==> m.hdr.cookie < st.phase.s.cookie))
    && (Repeats(st.target, open.hdr) ==> st.target.lastAckCmd != NB_FILE_RECEIVED)
    && (st.toHost != {} && !HasData(st) ==>
          && Repeats(st.target, open.hdr)
          && Header(NB_MAGIC, c, st.target.lastAckCmd, st.target.lastAckArg) in st.toHost)
  }

  lemma ApplyKeepsTraffic(src: Source, name: seq<byte>, c: u32, n: nat, st: System, a: Action)
    requires src.Valid() && Traffic(src, name, c, n, st) && Enabled(src, st, a)
    requires 0 < c && c + n + 2 < 0x1_0000_0000
    ensures Traffic(src, name, c, n + 1, Apply(src, name, st, a))
  {
    var next := Apply(src, name, st, a);
    assert HasData(st) ==> HasData(next) by {
      if m :| m in st.toTarget && IsData(m) { assert m in next.toTarget; }
    }
    match a
    case Open =>
    case OpenReply(h) =>
    case HostTurn(t) =>
      var r := Step(src, st.phase.s, t);
      if r.sent.Some? { assert IsData(r.sent.value) && r.sent.value in next.toTarget; }
    case Deliver(m, granted) =>
      if IsData(m) { assert HasData(next); }
  }

  lemma {:induction false} ExecKeepsTraffic(src: Source, name: seq<byte>, st: System, acts: seq<Action>)
    requires src.Valid() && Initial(src, name, st) && Exec(src, name, st, acts).Some?
    requires st.phase.openCookie > 0 && st.phase.openCookie + |acts| + 2 < 0x1_0000_0000
    ensures Traffic(src, name, st.phase.openCookie, |acts|, Exec(src, name, st, acts).value)
    decreases |acts|
  {
    if acts != [] {
      var prefix := acts[..|acts| - 1];
      ExecKeepsTraffic(src, name, st, prefix);
      ApplyKeepsTraffic(src, name, st.phase.openCookie, |prefix|, Exec(src, name, st, prefix).value, acts[|acts| - 1]);
    }
  }

  // What is new to the target.

  /** The target has not handled `m`, and nothing else carries its cookie. */
  ghost predicate Unseen(st: System, m: Message) {
    && st.target.lastCookie != m.hdr.cookie
    && (forall x :: x in st.toTarget && x.hdr.cookie == m.hdr.cookie ==> x == m)
    && (st.phase.Sending? ==> st.phase.s.cookie > m.hdr.cookie)
    && !st.phase.Idle?
  }

  predicate Delivers(a: Action, m: Message) { a.Deliver? && a.m == m }

  lemma UnseenStays(src: Source, name: seq<byte>, st: System, m: Message, a: Action)
    requires src.Valid() && Unseen(st, m) && Enabled(src, st, a) && !Delivers(a, m)
    requires (st.phase.Sending? && st.phase.s.cookie < 0xFFFF_FFFF) || st.phase.Succeeded? || st.phase.Failed?
    ensures Unseen(Apply(src, name, st, a), m)
    ensures var next := Apply(src, name, st, a);
            next.phase.Succeeded? || next.phase.Failed? || (next.phase.Sending? && st.phase.Sending? && next.phase.s.cookie <= st.phase.s.cookie + 1)
  {
    if a.HostTurn? { StepCookie(src, st.phase.s, a.t); }
  }

  lemma {:induction false} UnseenUntilDelivered(src: Source, name: seq<byte>, st: System, m: Message, more: seq<Action>)
    requires src.Valid() && Unseen(st, m) && Exec(src, name, st, more).Some? && (forall a :: a in more ==> !Delivers(a, m))
    requires st.phase.Succeeded? || st.phase.Failed? || (st.phase.Sending? && st.phase.s.cookie + |more| < 0xFFFF_FFFF)
    ensures var end := Exec(src, name, st, more).value;
            && Unseen(end, m)
            && (end.phase.Succeeded? || end.phase.Failed? || (end.phase.Sending? && st.phase.Sending? && end.phase.s.cookie <= st.phase.s.cookie + |more|))
    decreases |more|
  {
    if more != [] {
      var front, a := more[..|more| - 1], more[|more| - 1];
      assert a in more;
      UnseenUntilDelivered(src, name, st, m, front);
      UnseenStays(src, name, Exec(src, name, st, front).value, m, a);
    }
  }

  /** Until the cookie wraps around, a packet that the host sends is new to the target whenever it first arrives,
      however long it was under way and whatever arrived before. If it is at the target's offset it is taken;
      if not, it is answered with that offset. So the target never answers a new packet as a repetition. */
  lemma NewPacketIsAnswered(src: Source, name: seq<byte>, st: System, acts: seq<Action>, t: Turn, more: seq<Action>, granted: bool)
    requires src.Valid() && Initial(src, name, st) && Exec(src, name, st, acts).Some?
    requires st.phase.openCookie > 0 && st.phase.openCookie + |acts| + |more| + 4 < 0x1_0000_0000
    requires var now := Exec(src, name, st, acts).value;
             now.phase.Sending? && Enabled(src, now, HostTurn(t)) && Step(src, now.phase.s, t).sent.Some?
    requires var now := Exec(src, name, st, acts).value;
             var m := Step(src, now.phase.s, t).sent.value;
             && Exec(src, name, Apply(src, name, now, HostTurn(t)), more).Some?
             && forall a :: a in more ==> !Delivers(a, m)
    ensures var now := Exec(src, name, st, acts).value;
            var m := Step(src, now.phase.s, t).sent.value;
            var r := Exec(src, name, Apply(src, name, now, HostTurn(t)), more).value.target;
            var x := Receive(r, m, granted);
            && !Repeats(r, m.hdr)
            && (r.active.Some? && m.hdr.arg == r.active.value.offset ==>
                  x.next.active.Some? && HoldsPrefix(src, x.next.active.value) && x.next.active.value.offset == m.hdr.arg + |m.data|)
            && (r.active.Some? && m.hdr.arg != r.active.value.offset ==>
                  && x.next.active == r.active && x.reply.Some?
                  && x.reply.value.cookie == m.hdr.cookie && x.reply.value.cmd == NB_ACK && x.reply.value.arg == r.active.value.offset)
  {
    var now := Exec(src, name, st, acts).value;
    var m, next := Step(src, now.phase.s, t).sent.value, Apply(src, name, now, HostTurn(t));
    ExecKeepsInv(src, name, st, acts);
    ExecKeepsTraffic(src, name, st, acts);
    StepKeepsInStep(src, now.phase.s, t);
    StepCookie(src, now.phase.s, t);
    assert Unseen(next, m);
    UnseenUntilDelivered(src, name, next, m, more);
    ExecSnoc(src, name, st, acts, HostTurn(t));
    ExecConcat(src, name, st, acts + [HostTurn(t)], more);
    ExecKeepsInv(src, name, st, acts + [HostTurn(t)] + more);
    var end := Exec(src, name, next, more).value;
    ToHostGrows(src, name, next, more);
    ReceiveData(src, end.target, m, granted);
  }

  lemma {:induction false} ToHostGrows(src: Source, name: seq<byte>, st: System, more: seq<Action>)
    requires src.Valid() && Exec(src, name, st, more).Some?
    ensures st.toHost <= Exec(src, name, st, more).value.toHost
    decreases |more|
  {
    if more != [] { ToHostGrows(src, name, st, more[..|more| - 1]); }
  }

  // The states from which no run succeeds.

  /** The target has refused the file, and takes every copy of the opening packet for a repetition. */
  ghost predicate Refused(src: Source, st: System, open: Message) {
    && st.target.active.None? && Repeats(st.target, open.hdr) && st.target.lastAckCmd != NB_FILE_RECEIVED
    && (forall m :: m in st.toTarget ==> m == open || IsData(m))
    && (st.phase.Idle? ==> open.hdr.cookie == st.phase.openCookie)
  }

  /** The host waits at the end without ever having sent data, and nothing will make it go back. */
  ghost predicate Stranded(src: Source, st: System, open: Message) {
    && (st.phase.Sending? || st.phase.Failed?)
    && (st.phase.Sending? ==> st.phase.s.pos >= |src.bytes|)
    && !HasLowNack(src, st)
    && (forall m :: m in st.toTarget ==> m == open)
    && Repeats(st.target, open.hdr)
    && Header(NB_MAGIC, open.hdr.cookie, st.target.lastAckCmd, st.target.lastAckArg) in st.toHost
  }

  ghost predicate Hopeless(src: Source, st: System, open: Message) {
    !HasReport(st) && !st.phase.Succeeded? && (Refused(src, st, open) || Stranded(src, st, open) || Rejected(st, open))
  }

  /** The target answers the opening packet with a refusal only. */
  ghost predicate Rejected(st: System, open: Message) {
    && Repeats(st.target, open.hdr) && st.target.lastAckCmd == NB_ERROR_BAD_FILE
    && (st.phase.Idle? || st.phase.Opening? || st.phase.Failed?)
    && (forall m :: m in st.toTarget ==> m == open)
    && (forall h :: h in st.toHost ==> h.magic == NB_MAGIC && h.cookie == open.hdr.cookie && h.cmd == NB_ERROR_BAD_FILE)
    && (st.phase.Idle? || st.phase.Opening? ==> st.phase.openCookie == open.hdr.cookie)
  }

  lemma HopelessStays(src: Source, name: seq<byte>, c: u32, st: System, a: Action)
    requires src.Valid() && Hopeless(src, st, OpenMessage(src, name, c)) && Enabled(src, st, a)
    ensures Hopeless(src, Apply(src, name, st, a), OpenMessage(src, name, c))
  {
    var open, next := OpenMessage(src, name, c), Apply(src, name, st, a);
    assert !HasReport(next);
    if Refused(src, st, open) {
      assert Refused(src, next, open);
    } else if Stranded(src, st, open) {
      assert Stranded(src, next, open);
    } else {
      assert Rejected(next, open);
    }
  }

  lemma {:induction false} HopelessForever(src: Source, name: seq<byte>, c: u32, st: System, acts: seq<Action>)
    requires src.Valid() && Hopeless(src, st, OpenMessage(src, name, c)) && Exec(src, name, st, acts).Some?
    ensures Hopeless(src, Exec(src, name, st, acts).value, OpenMessage(src, name, c))
    decreases |acts|
  {
    if acts != [] {
      var prefix := acts[..|acts| - 1];
      HopelessForever(src, name, c, st, prefix);
      HopelessStays(src, name, c, Exec(src, name, st, prefix).value, acts[|acts| - 1]);
    }
  }

  ghost predicate CanSucceed(src: Source, name: seq<byte>, st: System)
    requires src.Valid()
  {
    exists acts :: Exec(src, name, st, acts).Some? && Exec(src, name, st, acts).value.phase.Succeeded?
  }

  /** Data to work with: a packet under way, or something the host can still send. */
  ghost predicate HasWay(src: Source, st: System)
    requires st.phase.Sending?
  {
    HasData(st) || HasLowNack(src, st) || st.phase.s.pos < |src.bytes|
  }

  lemma SendOne(src: Source, name: seq<byte>, st: System, open: Message) returns (d: Message)
    requires src.Valid() && Underway(src, st, open) && st.phase.s.pos < |src.bytes|
    ensures var a := HostTurn(SendingTurn());
            var next := Apply(src, name, st, a);
            && Enabled(src, st, a) && Underway(src, next, open) && next.target == st.target
            && d in next.toTarget && Faithful(src, d) && d.hdr.cookie == st.phase.s.cookie
            && d.hdr.arg == st.phase.s.pos && next.phase.s.pos == st.phase.s.pos + |d.data|
  {
    var t := SendingTurn();
    StepKeepsInStep(src, st.phase.s, t);
    d := Step(src, st.phase.s, t).sent.value;
    ApplyKeepsInv(src, name, st, HostTurn(t));
  }

  lemma RecoverBySending(src: Source, name: seq<byte>, st: System, open: Message) returns (acts: seq<Action>, end: System)
    requires src.Valid() && Underway(src, st, open) && CanAccept(st, open) && src.bytes != []
    requires st.phase.s.pos < |src.bytes| && st.phase.s.cookie > 0
    ensures Leads(src, name, st, acts, end) && Delivered(src, end)
  {
    var d := SendOne(src, name, st, open);
    var a := HostTurn(SendingTurn());
    var next := Apply(src, name, st, a);
    LeadsOne(src, name, st, a);
    var more;
    more, end := RecoverWith(src, name, next, open, d);
    LeadsOn(src, name, st, [a], next, more, end);
    acts := [a] + more;
  }

  lemma Recover(src: Source, name: seq<byte>, st: System, open: Message) returns (acts: seq<Action>, end: System)
    requires src.Valid() && Underway(src, st, open) && CanAccept(st, open) && src.bytes != [] && HasWay(src, st)
    requires forall m :: m in st.toTarget ==> m.hdr.cookie > 0
    requires 0 < st.phase.s.cookie < 0xFFFF_FFFF
    ensures Leads(src, name, st, acts, end) && Delivered(src, end)
  {
    if d :| d in st.toTarget && IsData(d) {
      acts, end := RecoverWith(src, name, st, open, d);
    } else if st.phase.s.pos < |src.bytes| {
      acts, end := RecoverBySending(src, name, st, open);
    } else {
      var h :| h in st.toHost && IsNack(h) && h.arg < |src.bytes|;
      var a := HostTurn(WaitingTurn(h));
      Rewound(src, name, st, open, h);
      LeadsOne(src, name, st, a);
      var back := Apply(src, name, st, a);
      var more;
      more, end := RecoverBySending(src, name, back, open);
      LeadsOn(src, name, st, [a], back, more, end);
      acts := [a] + more;
    }
  }

  /** From which states of a running transfer it can still succeed, as long as the cookie has not wrapped
      around: exactly if the report is under way, or the target would still take the file and there is a data
      packet under way, a reply that sends the host back, or something left to send. (Otherwise the target has
      refused the file for good, or a repeated answer to the opening packet has sent the host to the end before
      it sent anything.) */
  lemma CanStillSucceedIff(src: Source, name: seq<byte>, st: System, acts: seq<Action>)
    requires src.Valid() && Initial(src, name, st) && Exec(src, name, st, acts).Some? && src.bytes != []
    requires st.phase.openCookie > 0 && st.phase.openCookie + |acts| + 2 < 0x1_0000_0000
    requires Exec(src, name, st, acts).value.phase.Sending?
    ensures var now := Exec(src, name, st, acts).value;
            CanSucceed(src, name, now) <==>
            HasReport(now) || (CanAccept(now, OpenMessage(src, name, st.phase.openCookie)) && HasWay(src, now))
  {
    var now, c := Exec(src, name, st, acts).value, st.phase.openCookie;
    var open := OpenMessage(src, name, c);
    ExecKeepsInv(src, name, st, acts);
    ExecKeepsTraffic(src, name, st, acts);
    if h :| h in now.toHost && h.cmd == NB_FILE_RECEIVED {
      ReadReport(src, name, now, h);
      LeadsOne(src, name, now, HostTurn(WaitingTurn(h)));
    } else if CanAccept(now, open) && HasWay(src, now) {
      var more, end := Recover(src, name, now, open);
    } else {
      assert Hopeless(src, now, open);
      forall more | Exec(src, name, now, more).Some?
        ensures !Exec(src, name, now, more).value.phase.Succeeded?
      {
        HopelessForever(src, name, c, now, more);
      }
    }
  }

  /** Every transfer of a nonempty source to a target that grants it can get stuck before its first data packet:
      the answer to the opening packet carries the size, and read a second time it sends the host to the end. */
  lemma RepeatedAnswerStrands(src: Source, name: seq<byte>, st: System) returns (acts: seq<Action>)
    requires src.Valid() && Initial(src, name, st) && src.bytes != []
    requires !Repeats(st.target, OpenMessage(src, name, st.phase.openCookie).hdr)
    requires st.phase.openCookie > 0 && st.phase.openCookie + 6 < 0x1_0000_0000
    ensures Exec(src, name, st, acts).Some?
    ensures var end := Exec(src, name, st, acts).value;
            end.phase.Sending? && end.target.active.Some? && !CanSucceed(src, name, end)
  {
    var open := OpenMessage(src, name, st.phase.openCookie);
    var ack := Header(NB_MAGIC, open.hdr.cookie, NB_ACK, |src.bytes|);
    var reply, turn := OpenReply(Some(ack)), HostTurn(WaitingTurn(ack));
    ExecTwo(src, name, st, Open, Deliver(open, true));
    ExecSnoc(src, name, st, [Open, Deliver(open, true)], reply);
    ExecSnoc(src, name, st, [Open, Deliver(open, true)] + [reply], turn);
    acts := [Open, Deliver(open, true)] + [reply] + [turn];
    var end := Exec(src, name, st, acts).value;
    assert end.toTarget == {open} && end.toHost == {ack};
    CanStillSucceedIff(src, name, st, acts);
  }

  /** The target will answer the opening packet with NB_ACK. */
  predicate CanStart(st: System, open: Message) {
    !Repeats(st.target, open.hdr) || (st.target.active.Some? && st.target.lastAckCmd == NB_ACK)
  }

  /** Opening: however the target was left, the host gets to send. */
  lemma OpenUp(src: Source, name: seq<byte>, st: System) returns (acts: seq<Action>, end: System)
    requires src.Valid() && Initial(src, name, st) && CanStart(st, OpenMessage(src, name, st.phase.openCookie))
    ensures var open := OpenMessage(src, name, st.phase.openCookie);
            && Leads(src, name, st, acts, end) && Underway(src, end, open) && end.phase.s.pos == 0
            && end.target.active.Some? && Repeats(end.target, open.hdr)
  {
    var open := OpenMessage(src, name, st.phase.openCookie);
    InitialInv(src, name, st);
    ApplyKeepsInv(src, name, st, Open);
    var st1 := Apply(src, name, st, Open);
    ApplyKeepsInv(src, name, st1, Deliver(open, true));
    ExecTwo(src, name, st, Open, Deliver(open, true));
    var st2 := Apply(src, name, st1, Deliver(open, true));
    var ack := Header(NB_MAGIC, open.hdr.cookie, NB_ACK, st2.target.lastAckArg);
    assert ack in st2.toHost;
    var reply := OpenReply(Some(ack));
    ApplyKeepsInv(src, name, st2, reply);
    LeadsOne(src, name, st2, reply);
    end := Apply(src, name, st2, reply);
    LeadsOn(src, name, st, [Open, Deliver(open, true)], st2, [reply], end);
    acts := [Open, Deliver(open, true)] + [reply];
  }

  /** Opening and filling, however the target was left. */
  lemma OpenAndFill(src: Source, name: seq<byte>, st: System) returns (acts: seq<Action>, end: System, h: Header)
    requires src.Valid() && Initial(src, name, st) && src.bytes != [] && CanStart(st, OpenMessage(src, name, st.phase.openCookie))
    ensures Leads(src, name, st, acts, end) && Reported(src, end, h) && OpenMessage(src, name, st.phase.openCookie) in end.toTarget
  {
    var open := OpenMessage(src, name, st.phase.openCookie);
    var a1, st1 := OpenUp(src, name, st);
    var a2, st2, h2 := FillOpened(src, name, st1, open);
    LeadsOn(src, name, st, a1, st1, a2, st2);
    acts, end, h := a1 + a2, st2, h2;
  }

  /** A target left at some other offset is given the first packet, then opened anew, then given it again. */
  lemma FillOpened(src: Source, name: seq<byte>, st: System, open: Message) returns (acts: seq<Action>, end: System, h: Header)
    requires src.Valid() && Underway(src, st, open) && src.bytes != [] && st.phase.s.pos == 0
    requires st.target.active.Some? && Repeats(st.target, open.hdr)
    ensures Leads(src, name, st, acts, end) && Reported(src, end, h) && open in end.toTarget
  {
    if st.target.active.value.offset == 0 {
      acts, end, h := SendFromStart(src, name, st, open);
    } else {
      var a := HostTurn(SendingTurn());
      var d := SendOne(src, name, st, open);
      LeadsOne(src, name, st, a);
      var st1 := Apply(src, name, st, a);
      Nacked(src, name, st1, open, d);
      LeadsOne(src, name, st1, Deliver(d, true));
      var st2 := Apply(src, name, st1, Deliver(d, true));
      LeadsOn(src, name, st, [a], st1, [Deliver(d, true)], st2);
      Reopened(src, name, st2, open);
      LeadsOne(src, name, st2, Deliver(open, true));
      var st3 := Apply(src, name, st2, Deliver(open, true));
      LeadsOn(src, name, st, [a] + [Deliver(d, true)], st2, [Deliver(open, true)], st3);
      Accepted(src, name, st3, open, d);
      LeadsOne(src, name, st3, Deliver(d, true));
      var st4 := Apply(src, name, st3, Deliver(d, true));
      var so := [a] + [Deliver(d, true)] + [Deliver(open, true)];
      LeadsOn(src, name, st, so, st3, [Deliver(d, true)], st4);
      if st4.phase.s.pos == |src.bytes| {
        acts, end, h := so + [Deliver(d, true)], st4, Header(NB_MAGIC, d.hdr.cookie, NB_FILE_RECEIVED, 0);
      } else {
        var more;
        more, h := FillInOrder(src, name, st4);
        end := Exec(src, name, st4, more).value;
        LeadsOn(src, name, st, so + [Deliver(d, true)], st4, more, end);
        acts := so + [Deliver(d, true)] + more;
      }
    }
  }

  /** A nonempty source can be transferred if and only if the target will answer the opening packet with
      NB_ACK; and then it can be transferred so that the target holds all of it. */
  lemma TransferCanSucceedIff(src: Source, name: seq<byte>, st: System)
    requires src.Valid() && Initial(src, name, st) && src.bytes != []
    ensures CanSucceed(src, name, st) <==> CanStart(st, OpenMessage(src, name, st.phase.openCookie))
    ensures CanSucceed(src, name, st) ==> exists acts, end :: Leads(src, name, st, acts, end) && Delivered(src, end)
  {
    var open := OpenMessage(src, name, st.phase.openCookie);
    if CanStart(st, open) {
      var fill, full, h := OpenAndFill(src, name, st);
      ReadReport(src, name, full, h);
      LeadsOne(src, name, full, HostTurn(WaitingTurn(h)));
      var end := Apply(src, name, full, HostTurn(WaitingTurn(h)));
      LeadsOn(src, name, st, fill, full, [HostTurn(WaitingTurn(h))], end);
      assert Delivered(src, end);
    } else {
      assert Hopeless(src, st, open);
      forall more | Exec(src, name, st, more).Some?
        ensures !Exec(src, name, st, more).value.phase.Succeeded?
      {
        HopelessForever(src, name, st.phase.openCookie, st, more);
      }
    }
  }

  /** Without the restriction of `SuccessIsCompleteIfOpenedOnce` its claim fails for every nonempty source that
      can be transferred at all: a second copy of NB_SEND_FILE that arrives just before the host reads the
      final report leaves netboot_xfer returning 0 and the target's buffer empty again. */
  lemma LateOpenLosesTheFile(src: Source, name: seq<byte>, st: System) returns (acts: seq<Action>)
    requires src.Valid() && Initial(src, name, st) && src.bytes != [] && CanSucceed(src, name, st)
    ensures Exec(src, name, st, acts).Some?
    ensures var end := Exec(src, name, st, acts).value;
            end.phase.Succeeded? && end.target.active.Some? && end.target.active.value.offset == 0
  {
    TransferCanSucceedIff(src, name, st);
    var fill, full, h := OpenAndFill(src, name, st);
    var late := Deliver(OpenMessage(src, name, st.phase.openCookie), true);
    ExecSnoc(src, name, st, fill, late);
    ExecSnoc(src, name, st, fill + [late], HostTurn(WaitingTurn(h)));
    acts := fill + [late] + [HostTurn(WaitingTurn(h))];
  }
}
