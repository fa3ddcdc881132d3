/**
 Runs over the receiving halves of a session's channels, which share the packet
 queue and the transport.
 */
module ReceiveRuns {
  import opened Bytes
  import opened Transport
  import opened PacketQueue
  import opened ChannelReceive

  // ---- Runs over any number of channels

  /** An operation on one channel's receiving half. */
  datatype Op =
    | ReadOp(stream: int, len: nat, inbound: seq<Inbound>, result: ReadResult, outcome: SendResult)
    | AdjustOp(amount: uint32, force: bool, outcome: SendResult)
    | FlushOp(stream: int)
    | DeliverOp(m: Inbound)

  datatype Step = OnChannel(i: nat, op: Op) | Foreign(owner: nat, msg: Message, outcome: SendResult)

  /** What the caller of a blocked operation repeats: the buffer size of a read, the amount of an adjustment. */
  datatype Args = Args(len: nat, amount: uint32)

  ghost predicate Remembers(h: ReceiveHalf, a: Args)
    reads h
  {
    && (h.readBlocked ==> a.len == h.blockedLen && a.len < 0x8000_0000)
    && (h.adjustCreated && !h.readBlocked && !h.failed ==> a.amount == h.blockedArg)
  }

  /** The operation is a read of at most `b` octets, or an arrival. */
  predicate Reads(op: Op, b: nat) {
    op.DeliverOp? || (op.ReadOp? && op.len <= b)
  }

  /** The transport does not fail what the operation sends. */
  predicate OpSends(op: Op) {
    (op.ReadOp? || op.AdjustOp?) ==> op.outcome != Failed
  }

  /** What the operation sends goes out at once. */
  predicate OpCompletes(op: Op) {
    (op.ReadOp? || op.AdjustOp?) ==> op.outcome == Sent
  }

  /** Only reads touched the window of the half, with buffers of at most `b`. */
  ghost predicate ReadsOnly(h: ReceiveHalf, a: Args, b: nat)
    reads h
  {
    h.readsOnly && h.maxBuf <= b && a.len <= b
  }

  /** If the operation may send, no other sender's message is blocked. */
  predicate Undisturbed(h: ReceiveHalf, op: Op)
    reads h.transport
  {
    op.ReadOp? || op.AdjustOp? ==> h.Unhindered()
  }

  /**
   The operation keeps to the modes: its channel has the mode that is stated, is
   read on stream 0 only if it merges, and is not flushed if it is `channel`.
   */
  predicate OpKeeps(h: ReceiveHalf, op: Op, merge: nat -> bool, channel: nat) {
    && merge(h.id) == h.merge
    && (op.ReadOp? && h.merge ==> op.stream == 0)
    && (op.FlushOp? ==> h.id != channel)
  }

  lemma {:induction false} ArrivalsFixed(packets: seq<Packet>, merge: nat -> bool, channel: nat)
    ensures FixedModes(Arrivals(packets), merge, channel)
  {
    if packets != [] {
      ArrivalsFixed(packets[..|packets| - 1], merge, channel);
    }
  }

  /** What an operation adds to the history keeps to the modes. */
  lemma {:induction false} AddedFixed(history: seq<Event>, came: seq<Packet>, e: Event, merge: nat -> bool,
                                      channel: nat)
    requires FixedModes(history, merge, channel)
    ensures FixedModes(history + Arrivals(came), merge, channel)
    ensures (e.Take? ==> InMode(e.r, merge)) && (e.Drop? ==> e.channel != channel) ==>
              && FixedModes(history + Arrivals(came) + [e], merge, channel)
              && FixedModes(history + [e], merge, channel)
  {
    hide FixedModes, InMode, Arrivals;
    ArrivalsFixed(came, merge, channel);
    FixedAppend(history, Arrivals(came), merge, channel);
    FixedAppend(history + Arrivals(came), [e], merge, channel);
    FixedAppend(history, [e], merge, channel);
    OneFixed(e, merge, channel);
  }

  lemma {:induction false} OneFixed(e: Event, merge: nat -> bool, channel: nat)
    ensures FixedModes([e], merge, channel) <==>
            (e.Take? ==> InMode(e.r, merge)) && (e.Drop? ==> e.channel != channel)
  {
    hide InMode;
    assert [e][0] == e;
  }

  /** The history after an operation keeps to the modes, if the one before and the operation do. */
  ghost predicate StaysFixed(before: seq<Event>, h: ReceiveHalf, op: Op, after: seq<Event>) {
    forall merge, channel :: FixedModes(before, merge, channel) && OpKeeps(h, op, merge, channel) ==>
      FixedModes(after, merge, channel)
  }

  lemma {:induction false} ReadStaysFixed(before: seq<Event>, h: ReceiveHalf, op: Op, after: seq<Event>,
                                          came: seq<Packet>,
                                          n: nat)
    requires op.ReadOp?
    requires || after == before + Arrivals(came)
             || after == before + Arrivals(came) + [Take(Reader(h.id, op.stream, h.merge), n)]
    ensures StaysFixed(before, h, op, after)
  {
    hide FixedModes, Arrivals;
    forall merge, channel | FixedModes(before, merge, channel) && OpKeeps(h, op, merge, channel) {
      AddedFixed(before, came, Take(Reader(h.id, op.stream, h.merge), n), merge, channel);
    }
  }

  lemma {:induction false} QuietStaysFixed(before: seq<Event>, h: ReceiveHalf, op: Op, after: seq<Event>,
                                           came: seq<Packet>)
    requires || after == before
             || (op.FlushOp? && after == before + [Drop(h.id, op.stream)])
             || (op.DeliverOp? && after == before + Arrivals(came))
    ensures StaysFixed(before, h, op, after)
  {
    hide FixedModes, Arrivals;
    forall merge, channel: nat | FixedModes(before, merge, channel) && OpKeeps(h, op, merge, channel) {
      AddedFixed(before, came, if op.FlushOp? then Drop(h.id, op.stream) else Drop(channel + 1, 0), merge, channel);
    }
  }

  // ---- What reads answer

  /**
   What a read answered, how widening the window for it ended, its buffer, where
   it stands in the history of the queue, and whether the peer had ended the stream.
   */
  datatype Answer = NoRead | Answered(rc: ReadRc, widened: Rc, len: nat, at: nat, ended: bool)

  /**
   The answer is exact: where the window could be widened and draining did not
   break, it is all that waited for the reader and fits the buffer; an error stands
   for a failed widening or broken draining and for nothing else.
   */
  ghost predicate Exact(history: seq<Event>, h: ReceiveHalf, op: Op, a: Answer) {
    a.Answered? ==>
      && op.ReadOp?
      && match a.widened
         case Eagain => a.rc == WouldBlock
         case Err => a.rc == Error
         case Ok =>
           if op.result == Broken then a.rc == Error else
           && a.at < |history| && history[a.at] == Take(Reader(h.id, op.stream, h.merge), a.len)
           && var n := Min(a.len, |Unread(After(history[..a.at]), Reader(h.id, op.stream, h.merge))|);
              a.rc == if n > 0 then Bytes(n) else if a.ended || op.result != Blocked then EndOfData else WouldBlock
  }

  lemma {:induction false} ExactStays(history: seq<Event>, more: seq<Event>, h: ReceiveHalf, op: Op, a: Answer)
    requires history <= more && Exact(history, h, op, a)
    ensures Exact(more, h, op, a)
  {
    hide Unread, After, Min;
    if a.Answered? && a.at < |history| {
      assert history[..a.at] == more[..a.at];
    }
  }

  lemma {:induction false} NoAnswer(history: seq<Event>, h: ReceiveHalf, op: Op, clear: bool)
    ensures Exact(history, h, op, NoRead) && Prompt(NoRead, op, clear)
  {
  }

  /** With no other sender's message in the way, only the transport itself fails or blocks the widening. */
  lemma {:induction false} WidenClear(h: ReceiveHalf, len: nat, outcome: SendResult)
    requires h.Valid() && !h.failed && h.Unhindered()
    ensures outcome != Failed ==> h.WidenRc(len, outcome) != Err
    ensures outcome == Sent ==> h.WidenRc(len, outcome) == Ok
  {
    hide ReceiveHalf.CounterLaw, ReceiveHalf.Ledger, ReceiveHalf.WindowLaw, ReceiveHalf.ReadLaw, LowMark, AdjustmentFor,
         ReceiveHalf.WillSend;
  }

  /** How widening ended, given what the transport does for the operation. */
  predicate Prompt(a: Answer, op: Op, clear: bool) {
    a.Answered? && clear ==> (OpSends(op) ==> a.widened != Err) && (OpCompletes(op) ==> a.widened == Ok)
  }

  /** One operation; a blocked one is repeated before another touches the window. */
  method Perform(h: ReceiveHalf, op: Op, a: Args) returns (b: Args, ghost answer: Answer)
    requires h.Valid() && Remembers(h, a)
    modifies h, h.queue, h.transport
    ensures h.Valid() && Remembers(h, b)
    ensures ServedOnly(old(h.transport.Now()), h.transport.Now(), h.owner)
    ensures forall c :: c != h.id ==> Total(h.queue.packets, c) == old(Total(h.queue.packets, c))
    ensures forall n :: Reads(op, n) && old(ReadsOnly(h, a, n)) ==> ReadsOnly(h, b, n)
    ensures OpSends(op) && !old(h.failed) && old(Undisturbed(h, op)) ==> !h.failed
    ensures OpCompletes(op) && old(h.transport.pending).None? ==> h.transport.pending.None?
    ensures StaysFixed(old(h.queue.history), h, op, h.queue.history) && old(h.queue.history) <= h.queue.history
    ensures answer.Answered? <==> op.ReadOp? && old(!h.adjustCreated || h.readBlocked) && op.len < 0x8000_0000
                                  && AllData(op.inbound)
    ensures Exact(h.queue.history, h, op, answer)
    ensures Prompt(answer, op, old(!h.failed && h.Unhindered()))
  {
    hide ReceiveHalf.Valid, Total, Drain, Unread, MessagesOf, AllData, TakenAll, ReceiveHalf.Unhindered, StaysFixed,
         Arrivals, ReceiveHalf.Narrow, LowMark, After, ReceiveHalf.WidenRc, Min, Returned, Arrived, Exact, Prompt;
    b, answer := a, NoRead;
    if op.ReadOp? && (!h.adjustCreated || h.readBlocked) && op.len < 0x8000_0000 && AllData(op.inbound) {
      if !h.readBlocked {
        b := b.(len := op.len);
      }
      answer := PerformRead(h, op, b.len);
    } else if op.AdjustOp? && !h.readBlocked {
      if !h.adjustCreated {
        b := b.(amount := op.amount);
      }
      QuietStaysFixed(h.queue.history, h, op, h.queue.history, []);
      var rc := h.ReceiveWindowAdjust(b.amount, op.force, op.outcome);
    } else {
      Quietly(h, op);
    }
    if answer == NoRead {
      NoAnswer(h.queue.history, h, op, old(!h.failed && h.Unhindered()));
    }
  }

  /** A read, with the buffer that it began with if it was blocked. */
  method PerformRead(h: ReceiveHalf, op: Op, len: nat) returns (ghost answer: Answer)
    requires h.Valid() && op.ReadOp? && (h.adjustCreated ==> h.readBlocked) && AllData(op.inbound)
    requires len < 0x8000_0000 && (h.readBlocked ==> len == h.blockedLen)
    modifies h, h.queue, h.transport
    ensures h.Valid() && (h.readBlocked ==> h.blockedLen == len) && (h.adjustCreated ==> h.readBlocked)
    ensures ServedOnly(old(h.transport.Now()), h.transport.Now(), h.owner)
    ensures h.readsOnly == old(h.readsOnly) && (h.maxBuf == if len > old(h.maxBuf) then len else old(h.maxBuf))
    ensures forall c :: c != h.id ==> Total(h.queue.packets, c) == old(Total(h.queue.packets, c))
    ensures !old(h.failed) && old(h.Unhindered()) && op.outcome != Failed ==> !h.failed
    ensures op.outcome == Sent && old(h.transport.pending).None? ==> h.transport.pending.None?
    ensures StaysFixed(old(h.queue.history), h, op, h.queue.history) && old(h.queue.history) <= h.queue.history
    ensures answer.Answered? && answer.len == len && answer.ended == (h.eof || h.closed)
    ensures answer.widened == old(h.WidenRc(len, op.outcome))
    ensures Exact(h.queue.history, h, op, answer)
    ensures Prompt(answer, op, old(!h.failed && h.Unhindered()))
  {
    hide ReceiveHalf.Valid, Total, Drain, Unread, MessagesOf, AllData, TakenAll, ReceiveHalf.Unhindered, StaysFixed,
         Arrivals, ReceiveHalf.Narrow, LowMark, After, ReceiveHalf.WidenRc, Min, Returned, Arrived;
    if !h.failed && h.Unhindered() {
      WidenClear(h, len, op.outcome);
    }
    var buf := new byte[len];
    var rc, q, w := h.Read(op.stream, buf, op.inbound, op.result, op.outcome);
    ghost var n := |h.queue.history|;
    answer := Answered(rc, old(h.WidenRc(len, op.outcome)), len, if n == 0 then 0 else n - 1, h.eof || h.closed);
    ghost var came := if h.readBlocked then [] else TakenAll(op.inbound, h.id, h.packetSize, w, old(h.readAvail));
    ReadStaysFixed(old(h.queue.history), h, op, h.queue.history, came, len);
  }

  /** The operations that send nothing. */
  method Quietly(h: ReceiveHalf, op: Op)
    requires h.Valid()
    modifies h, h.queue
    ensures h.Valid()
    ensures h.readBlocked == old(h.readBlocked) && h.blockedLen == old(h.blockedLen)
    ensures h.adjustCreated == old(h.adjustCreated) && h.blockedArg == old(h.blockedArg) && h.failed == old(h.failed)
    ensures h.maxBuf == old(h.maxBuf) && (!op.FlushOp? ==> h.readsOnly == old(h.readsOnly))
    ensures forall c :: c != h.id ==> Total(h.queue.packets, c) == old(Total(h.queue.packets, c))
    ensures StaysFixed(old(h.queue.history), h, op, h.queue.history) && old(h.queue.history) <= h.queue.history
  {
    hide ReceiveHalf.Valid, Total, Kept, IsData, Taken, Unread, Arrivals, Octets, StaysFixed;
    ghost var came := [];
    if op.FlushOp? && !h.adjustCreated {
      var n := h.Flush(op.stream);
    } else if op.DeliverOp? && IsData(op.m) {
      came := Taken(op.m, h.id, h.packetSize, h.window, h.readAvail);
      h.Deliver(op.m);
    }
    QuietStaysFixed(old(h.queue.history), h, op, h.queue.history, came);
  }

  /** Several channels of one session. */
  ghost predicate OneSession(halves: seq<ReceiveHalf>, transport: Transport, queue: Queue) {
    && (forall i :: 0 <= i < |halves| ==> halves[i].transport == transport && halves[i].queue == queue)
    && (forall i, j :: 0 <= i < j < |halves| ==>
          halves[i] != halves[j] && halves[i].id != halves[j].id && halves[i].owner != halves[j].owner)
  }

  ghost predicate AllValid(halves: seq<ReceiveHalf>, args: seq<Args>)
    requires |args| == |halves|
    reads set i | 0 <= i < |halves| :: halves[i], set i | 0 <= i < |halves| :: halves[i].transport,
          set i | 0 <= i < |halves| :: halves[i].queue
  {
    forall i :: 0 <= i < |halves| ==> halves[i].Valid() && Remembers(halves[i], args[i])
  }

  /** One operation on one of the channels. */
  method OnOne(halves: seq<ReceiveHalf>, transport: Transport, queue: Queue, args: seq<Args>, i: nat, op: Op)
    returns (next: seq<Args>, ghost answer: Answer)
    requires OneSession(halves, transport, queue) && |args| == |halves| && AllValid(halves, args) && i < |halves|
    modifies halves[i], transport, queue
    ensures |next| == |halves| && AllValid(halves, next) && queue.Valid()
    ensures forall n :: Reads(op, n) && old(ReadsOnly(halves[i], args[i], n)) ==> ReadsOnly(halves[i], next[i], n)
    ensures forall j :: 0 <= j < |halves| && j != i ==> next[j] == args[j]
    ensures OpSends(op) && !old(halves[i].failed) && old(Undisturbed(halves[i], op)) ==> !halves[i].failed
    ensures OpCompletes(op) && old(transport.pending).None? ==> transport.pending.None?
    ensures StaysFixed(old(queue.history), halves[i], op, queue.history) && old(queue.history) <= queue.history
    ensures Exact(queue.history, halves[i], op, answer) && (answer.Answered? ==> op.ReadOp?)
    ensures Prompt(answer, op, old(!halves[i].failed && halves[i].Unhindered()))
  {
    hide Total, MessagesOf, AdjustTotal, ReadsOnly, Reads, Undisturbed, StaysFixed, Exact, Prompt, After;
    var a;
    a, answer := Perform(halves[i], op, args[i]);
    next := args[i := a];
    forall j | 0 <= j < |halves| && j != i
      ensures halves[j].Valid()
    {
      assert halves[j].Log() == old(halves[j].Log());
    }
  }

  /** A message from elsewhere in the session. */
  method SendForeign(halves: seq<ReceiveHalf>, transport: Transport, queue: Queue, args: seq<Args>,
                     owner: nat, msg: Message, outcome: SendResult)
    requires OneSession(halves, transport, queue) && |args| == |halves| && AllValid(halves, args)
    requires forall i :: 0 <= i < |halves| ==> halves[i].owner != owner
    modifies transport
    ensures AllValid(halves, args)
    ensures outcome == Sent && old(transport.pending).None? ==> transport.pending.None?
  {
    hide Total, MessagesOf, AdjustTotal;
    var rc := transport.Send(owner, msg, outcome);
    forall j | 0 <= j < |halves|
      ensures halves[j].Valid()
    {
      assert halves[j].Log() == old(halves[j].Log());
    }
  }

  /** In a script, one channel is only read, with buffers of at most `b`, and its data arrives. */
  predicate ReadsWithin(script: seq<Step>, i: nat, b: nat) {
    forall k :: 0 <= k < |script| && script[k].OnChannel? && script[k].i == i ==> Reads(script[k].op, b)
  }

  /** In a script, the transport fails nothing that one channel sends. */
  predicate NeverFails(script: seq<Step>, i: nat) {
    forall k :: 0 <= k < |script| && script[k].OnChannel? && script[k].i == i ==> OpSends(script[k].op)
  }

  /** In a script, all that anyone sends goes out at once. */
  predicate AllComplete(script: seq<Step>) {
    forall k :: 0 <= k < |script| ==>
      match script[k] case OnChannel(_, op) => OpCompletes(op) case Foreign(_, _, outcome) => outcome == Sent
  }

  /** A script keeps to the modes of its channels, and does not flush `channel`. */
  ghost predicate KeepsModes(halves: seq<ReceiveHalf>, script: seq<Step>, merge: nat -> bool, channel: nat) {
    forall k :: 0 <= k < |script| && script[k].OnChannel? && script[k].i < |halves| ==>
      OpKeeps(halves[script[k].i], script[k].op, merge, channel)
  }

  lemma {:induction false} ReadsStep(script: seq<Step>, k: nat, i: nat, b: nat)
    requires k < |script| && ReadsWithin(script[..k + 1], i, b)
    ensures ReadsWithin(script[..k], i, b) && (script[k].OnChannel? && script[k].i == i ==> Reads(script[k].op, b))
  {
    var t := script[..k + 1];
    assert t[k] == script[k] && forall j :: 0 <= j < k ==> t[j] == script[..k][j];
  }

  lemma {:induction false} SendsStep(script: seq<Step>, k: nat, i: nat)
    requires k < |script| && NeverFails(script[..k + 1], i)
    ensures NeverFails(script[..k], i) && (script[k].OnChannel? && script[k].i == i ==> OpSends(script[k].op))
  {
    var t := script[..k + 1];
    assert t[k] == script[k] && forall j :: 0 <= j < k ==> t[j] == script[..k][j];
  }

  lemma {:induction false} CompleteStep(script: seq<Step>, k: nat)
    requires k < |script| && AllComplete(script[..k + 1])
    ensures AllComplete(script[..k])
    ensures match script[k] case OnChannel(_, op) => OpCompletes(op) && OpSends(op)
                            case Foreign(_, _, outcome) => outcome == Sent
  {
    var t := script[..k + 1];
    assert t[k] == script[k] && forall j :: 0 <= j < k ==> t[j] == script[..k][j];
  }

  /** What is known of a half from the script alone. */
  ghost predicate Follows(h: ReceiveHalf, a: Args, script: seq<Step>, i: nat, patient: bool, calm: bool)
    reads h
  {
    && (forall b :: ReadsWithin(script, i, b) ==> ReadsOnly(h, a, b))
    && ((patient && NeverFails(script, i)) || (calm && AllComplete(script)) ==> !h.failed)
  }

  /** The step is a read of one of the channels, and its answer is exact; or it is none. */
  ghost predicate AnswersStep(halves: seq<ReceiveHalf>, step: Step, history: seq<Event>, a: Answer) {
    a.Answered? ==> step.OnChannel? && step.i < |halves| && Exact(history, halves[step.i], step.op, a)
  }

  /** In a script whose sends do not fail, no read fails to widen the window; if all complete, every read widens it. */
  ghost predicate Swift(a: Answer, script: seq<Step>, i: nat, patient: bool, calm: bool) {
    a.Answered? ==>
      && (patient && NeverFails(script, i) ==> a.widened != Err)
      && (calm && AllComplete(script) ==> a.widened == Ok)
  }

  lemma {:induction false} NoReadSwift(script: seq<Step>, i: nat, patient: bool, calm: bool)
    ensures Swift(NoRead, script, i, patient, calm)
  {
  }

  lemma {:induction false} SwiftWhole(a: Answer, script: seq<Step>, k: nat, i: nat, patient: bool, calm: bool)
    requires k < |script| && Swift(a, script[..k + 1], i, patient, calm)
    ensures Swift(a, script, i, patient, calm)
  {
    var t := script[..k + 1];
    assert forall j :: 0 <= j < |t| ==> t[j] == script[j];
  }

  /** Step `k` of a script. */
  method Advance(halves: seq<ReceiveHalf>, transport: Transport, queue: Queue, args: seq<Args>,
                 script: seq<Step>, k: nat, patient: bool, ghost calm: bool)
    returns (next: seq<Args>, ghost answer: Answer)
    requires OneSession(halves, transport, queue) && |args| == |halves| && AllValid(halves, args) && queue.Valid()
    requires k < |script| && (calm && AllComplete(script[..k]) ==> transport.pending.None?)
    modifies set i | 0 <= i < |halves| :: halves[i], transport, queue
    ensures |next| == |halves| && AllValid(halves, next) && queue.Valid()
    ensures calm && AllComplete(script[..k + 1]) ==> transport.pending.None?
    ensures forall i :: 0 <= i < |halves| && old(Follows(halves[i], args[i], script[..k], i, patient, calm)) ==>
              Follows(halves[i], next[i], script[..k + 1], i, patient, calm)
    ensures forall merge, c :: old(FixedModes(queue.history, merge, c)) && KeepsModes(halves, script, merge, c) ==>
              FixedModes(queue.history, merge, c)
    ensures old(queue.history) <= queue.history && AnswersStep(halves, script[k], queue.history, answer)
    ensures answer.Answered? && script[k].OnChannel? && script[k].i < |halves|
            && old(Follows(halves[script[k].i], args[script[k].i], script[..k], script[k].i, patient, calm)) ==>
              Swift(answer, script[..k + 1], script[k].i, patient, calm)
  {
    hide ReceiveHalf.Valid, ReadsWithin, NeverFails, AllComplete, Reads, OpSends, OpCompletes, FixedModes, OpKeeps,
         Exact, After;
    if AllComplete(script[..k + 1]) {
      CompleteStep(script, k);
    }
    next, answer := args, NoRead;
    match script[k] {
      case OnChannel(i, op) =>
        if i < |halves| && !(patient && !Undisturbed(halves[i], op)) {
          if NeverFails(script[..k + 1], i) {
            SendsStep(script, k, i);
          }
          next, answer := OnOne(halves, transport, queue, args, i, op);
        }
      case Foreign(owner, msg, outcome) =>
        if forall i :: 0 <= i < |halves| ==> halves[i].owner != owner {
          SendForeign(halves, transport, queue, args, owner, msg, outcome);
        }
    }
    forall j | 0 <= j < |halves| && old(Follows(halves[j], args[j], script[..k], j, patient, calm))
      ensures Follows(halves[j], next[j], script[..k + 1], j, patient, calm)
    {
      if NeverFails(script[..k + 1], j) {
        SendsStep(script, k, j);
      }
      forall b | ReadsWithin(script[..k + 1], j, b)
        ensures ReadsOnly(halves[j], next[j], b)
      {
        ReadsStep(script, k, j, b);
        assert old(ReadsOnly(halves[j], args[j], b));
      }
    }
  }

  lemma {:induction false} AnswersStay(halves: seq<ReceiveHalf>, script: seq<Step>, before: seq<Event>,
                                       after: seq<Event>, answers: seq<Answer>)
    requires before <= after && |answers| == |script|
    requires forall j :: 0 <= j < |script| ==> AnswersStep(halves, script[j], before, answers[j])
    ensures forall j :: 0 <= j < |script| ==> AnswersStep(halves, script[j], after, answers[j])
  {
    hide Exact;
    forall j | 0 <= j < |script| && answers[j].Answered?
      ensures AnswersStep(halves, script[j], after, answers[j])
    {
      assert AnswersStep(halves, script[j], before, answers[j]);
      ExactStays(before, after, halves[script[j].i], script[j].op, answers[j]);
    }
  }

  /**
   Every run over the channels of a session: arrivals, reads with any buffers,
   window requests with any amounts and force flags, flushes, and messages of
   other senders, in any order and blocked any number of times.  A patient caller
   lets another sender's blocked message go out before it goes on; then only the
   transport itself can fail what it sends.
   */
  method Run(halves: seq<ReceiveHalf>, transport: Transport, queue: Queue, script: seq<Step>, patient: bool)
    returns (ghost answers: seq<Answer>)
    requires OneSession(halves, transport, queue) && queue.Valid()
    requires forall i :: 0 <= i < |halves| ==> halves[i].Valid() && !halves[i].adjustCreated && !halves[i].readBlocked
    modifies set i | 0 <= i < |halves| :: halves[i], transport, queue
    ensures forall i :: 0 <= i < |halves| ==> halves[i].Valid() && Balanced(halves[i])
    // a new half that is only read, with no failing sends, keeps its window in bounds
    ensures forall i, b :: 0 <= i < |halves| && old(New(halves[i])) && ReadsWithin(script, i, b) ==>
              halves[i].readsOnly && halves[i].maxBuf <= b
    ensures forall i :: 0 <= i < |halves| && old(New(halves[i])) && patient && NeverFails(script, i) ==>
              !halves[i].failed
    ensures old(transport.pending).None? && AllComplete(script) ==>
              forall i :: 0 <= i < |halves| && old(New(halves[i])) ==> !halves[i].failed
    ensures forall i, b :: 0 <= i < |halves| && old(New(halves[i])) && ReadsWithin(script, i, b) ==>
              Bounded(halves[i], b)
    // what reads returned and what still waits is what arrived, for every channel and stream of a script in fixed modes
    ensures forall merge, c :: old(FixedModes(queue.history, merge, c)) && KeepsModes(halves, script, merge, c) ==>
              && FixedModes(queue.history, merge, c)
              && forall r: Reader :: r.channel == c && InMode(r, merge) ==> Whole(queue, r)
    // every read returns all that waits for it and fits, unless it blocks or breaks
    ensures |answers| == |script| && old(queue.history) <= queue.history
    ensures forall k :: 0 <= k < |script| ==> AnswersStep(halves, script[k], queue.history, answers[k])
    ensures forall k :: 0 <= k < |script| && script[k].OnChannel? && script[k].i < |halves|
                        && old(New(halves[script[k].i])) ==>
              Swift(answers[k], script, script[k].i, patient, old(transport.pending).None?)
  {
    hide ReceiveHalf.Valid, Balanced, OneSession, Returned, Arrived, Unread, After, FixedModes, InMode, LowMark,
         ReadsWithin, NeverFails, AllComplete, Bounded, KeepsModes, Whole, Exact, Swift;
    answers := [];
    var args := seq(|halves|, _ => Args(0, 0));
    ghost var calm := transport.pending.None?;
    for k := 0 to |script|
      invariant |args| == |halves| && AllValid(halves, args) && queue.Valid()
      invariant calm && AllComplete(script[..k]) ==> transport.pending.None?
      invariant forall i :: 0 <= i < |halves| && old(New(halves[i])) ==>
                  Follows(halves[i], args[i], script[..k], i, patient, calm)
      invariant forall merge, c :: old(FixedModes(queue.history, merge, c)) && KeepsModes(halves, script, merge, c) ==>
                  FixedModes(queue.history, merge, c)
      invariant |answers| == k && old(queue.history) <= queue.history
      invariant forall j :: 0 <= j < k ==> AnswersStep(halves, script[j], queue.history, answers[j])
      invariant forall j :: 0 <= j < k && script[j].OnChannel? && script[j].i < |halves|
                            && old(New(halves[script[j].i])) ==>
                  Swift(answers[j], script, script[j].i, patient, calm)
    {
      ghost var before, answer := queue.history, NoRead;
      args, answer := Advance(halves, transport, queue, args, script, k, patient, calm);
      AnswersStay(halves, script[..k], before, queue.history, answers);
      if script[k].OnChannel? && script[k].i < |halves| && old(New(halves[script[k].i])) {
        if answer == NoRead {
          NoReadSwift(script[..k + 1], script[k].i, patient, calm);
        }
        SwiftWhole(answer, script, k, script[k].i, patient, calm);
      }
      answers := answers + [answer];
    }
    assert script[..|script|] == script;
    forall i | 0 <= i < |halves|
      ensures Balanced(halves[i])
    {
      IsBalanced(halves[i]);
    }
    forall i, b | 0 <= i < |halves| && old(New(halves[i])) && ReadsWithin(script, i, b)
      ensures Bounded(halves[i], b)
    {
      InBounds(halves[i], b);
    }
    forall r: Reader, merge | FixedModes(queue.history, merge, r.channel) && InMode(r, merge)
      ensures Whole(queue, r)
    {
      IsWhole(queue, r, merge);
    }
  }

  /** What was returned to a reader, then what still waits for it, is what arrived for it, in order. */
  ghost predicate Whole(queue: Queue, r: Reader)
    reads queue
  {
    queue.Got(r) + Unread(queue.packets, r) == queue.Came(r)
  }

  lemma {:induction false} IsWhole(queue: Queue, r: Reader, merge: nat -> bool)
    requires queue.Valid() && InMode(r, merge) && FixedModes(queue.history, merge, r.channel)
    ensures Whole(queue, r)
  {
    hide After, Returned, Arrived, Unread, FixedModes, InMode;
    Lossless(queue.history, r, merge);
  }

  /** As it was opened: nothing has touched the window, and nothing has failed. */
  ghost predicate New(h: ReceiveHalf)
    reads h
  {
    h.readsOnly && h.maxBuf == 0 && !h.failed
  }

  /**
   Without a failure, the window is within three quarters of its size and one
   buffer more until an adjustment wraps, which takes a buffer that reaches 2^32
   together with the size.
   */
  ghost predicate Bounded(h: ReceiveHalf, b: nat)
    reads h
  {
    !h.failed && h.initial >= 4096 ==>
      && (h.initial + b < TWO_32 ==> !h.overflowed)
      && (!h.overflowed && Fits(h.initial, b) ==> h.initial / 4 * 3 <= h.window <= h.initial + b)
  }

  lemma {:induction false} InBounds(h: ReceiveHalf, b: nat)
    requires h.Valid() && h.readsOnly && h.maxBuf <= b
    ensures Bounded(h, b)
  {
    hide LowMark, Fits;
    LowMarkIs(h.initial);
    FitsLess(h.initial, h.maxBuf, b);
  }

  /**
   A channel with a window of 3 * 2^30 and a first read of 2^30 octets: the
   adjustment takes the window to zero, and what the peer then sends is dropped.
   */
  method WrappedWindow(transport: Transport, queue: Queue, m: Inbound) returns (h: ReceiveHalf)
    requires transport.wire == [] && transport.pending == None && queue.Valid() && queue.packets == []
    requires m.InData? && IsData(m)
    modifies transport, queue
    ensures h.Valid() && !h.failed && h.initial == 0xC000_0000 && h.window == 0 < LowMark(h.initial)
    ensures queue.packets == []
  {
    hide ReceiveHalf.Valid, Total, MessagesOf, ServedOnly, Unread, TakenAll, Drain, After, Returned, Arrived, Arrivals,
         ReceiveHalf.WidenRc;
    NothingSent(transport, queue);
    h := new ReceiveHalf(0, transport, queue, 0, 0, 0xC000_0000, 32768, false);
    var buf := new byte[0x4000_0000];
    NothingQueued(h, buf.Length);
    var rc, q, w := h.Read(0, buf, [], Blocked, Sent);
    assert w == 0 && q == [] && !rc.Bytes?;
    h.Deliver(m);
  }

  lemma {:induction false} NothingQueued(h: ReceiveHalf, n: nat)
    ensures Drain([], Reader(h.id, 0, h.merge), n) == Drained([], []) && Unread([], Reader(h.id, 0, h.merge)) == []
    ensures forall w :: TakenAll([], h.id, h.packetSize, w, h.readAvail) == []
  {
  }

  function Amounts(calls: seq<(uint32, bool)>): nat {
    if calls == [] then 0 else Amounts(calls[..|calls| - 1]) + calls[|calls| - 1].0
  }

  /** What is queued after requests whose sends complete. */
  function QueuedAfter(queued: nat, calls: seq<(uint32, bool)>): nat {
    if calls == [] then queued else
    var (amount, force) := calls[|calls| - 1];
    var total := (QueuedAfter(queued, calls[..|calls| - 1]) + amount) % TWO_32;
    if force || total >= MIN_ADJUST then 0 else total
  }

  /** No request overflows 32 bits together with what is queued before it. */
  ghost predicate NoneWraps(queued: nat, calls: seq<(uint32, bool)>) {
    forall k :: 0 <= k < |calls| ==> calls[k].0 + QueuedAfter(queued, calls[..k]) < TWO_32
  }

  lemma {:induction false} WrapStep(queued: nat, calls: seq<(uint32, bool)>, k: nat)
    requires k < |calls|
    ensures NoneWraps(queued, calls[..k + 1]) <==>
            NoneWraps(queued, calls[..k]) && calls[k].0 + QueuedAfter(queued, calls[..k]) < TWO_32
    ensures QueuedAfter(queued, calls[..k + 1]) ==
            var total := (QueuedAfter(queued, calls[..k]) + calls[k].0) % TWO_32;
            if calls[k].1 || total >= MIN_ADJUST then 0 else total
  {
    hide QueuedAfter;
    var t := calls[..k + 1];
    assert t[..k] == calls[..k] && t[k] == calls[k];
    assert forall j :: 0 <= j < k ==> t[j] == calls[..k][j] && t[..j] == calls[..k][..j];
    QueuedSnoc(queued, t);
  }

  lemma {:induction false} NoCalls(queued: nat, calls: seq<(uint32, bool)>)
    ensures QueuedAfter(queued, calls[..0]) == queued && NoneWraps(queued, calls[..0]) && Amounts(calls[..0]) == 0
  {
  }

  lemma {:induction false} QueuedSnoc(queued: nat, calls: seq<(uint32, bool)>)
    requires calls != []
    ensures var n := |calls| - 1;
            var total := (QueuedAfter(queued, calls[..n]) + calls[n].0) % TWO_32;
            QueuedAfter(queued, calls) == if calls[n].1 || total >= MIN_ADJUST then 0 else total
  {
  }

  /** Counters before and after requests whose sends complete. */
  ghost predicate Settled(asked: nat, sentBefore: nat, sent: nat, queuedBefore: nat, queued: nat, wraps: int) {
    queued < MIN_ADJUST && asked + queuedBefore == sent - sentBefore + queued + TWO_32 * wraps
  }

  /**
   Requests with any amounts and force flags whose sends complete: what was
   asked for is sent or queued, and the window grows by exactly what is sent.  The
   account is exact if and only if no amount overflows 32 bits together with what
   is queued before it.
   */
  method Requests(h: ReceiveHalf, calls: seq<(uint32, bool)>)
    requires h.Valid() && !h.adjustCreated && !h.readBlocked && !h.failed && h.transport.pending == None
    modifies h, h.transport
    ensures h.Valid() && !h.adjustCreated && !h.failed
    ensures Settled(Amounts(calls), old(AdjustTotal(h.Log())), AdjustTotal(h.Log()),
                    old(h.adjustQueue), h.adjustQueue, h.lost - old(h.lost))
    ensures h.window == (old(h.window) + AdjustTotal(h.Log()) - old(AdjustTotal(h.Log()))) % TWO_32
    ensures h.lost == old(h.lost) <==> NoneWraps(old(h.adjustQueue), calls)
    ensures h.adjustQueue == QueuedAfter(old(h.adjustQueue), calls) && h.lost >= old(h.lost)
    ensures (forall i :: 0 <= i < |calls| ==> calls[i].0 <= TWO_32 - MIN_ADJUST) ==> h.lost == old(h.lost)
  {
    hide NoneWraps, QueuedAfter, ReceiveHalf.Valid, AdjustTotal, ReceiveHalf.Log, ServedOnly;
    LedgerOf(h);
    NoCalls(h.adjustQueue, calls);
    for k := 0 to |calls|
      invariant h.Valid() && !h.adjustCreated && !h.readBlocked && !h.failed && h.transport.pending == None
      invariant h.shortfall == old(h.shortfall) && h.consumed == old(h.consumed)
      invariant h.requested == old(h.requested) + Amounts(calls[..k])
      invariant (forall i :: 0 <= i < k ==> calls[i].0 <= TWO_32 - MIN_ADJUST) ==> h.lost == old(h.lost)
      invariant h.adjustQueue == QueuedAfter(old(h.adjustQueue), calls[..k]) && h.lost >= old(h.lost)
      invariant h.lost == old(h.lost) <==> NoneWraps(old(h.adjustQueue), calls[..k])
    {
      LedgerOf(h);
      WrapStep(old(h.adjustQueue), calls, k);
      assert calls[..k + 1][..k] == calls[..k];
      var rc := h.ReceiveWindowAdjust(calls[k].0, calls[k].1, Sent);
    }
    assert calls[..|calls|] == calls;
    LedgerOf(h);
    AddMod(old(h.Credit()), AdjustTotal(h.Log()) - old(AdjustTotal(h.Log())));
  }

  lemma {:induction false} LedgerOf(h: ReceiveHalf)
    requires h.Valid() && !h.failed
    ensures h.adjustQueue < MIN_ADJUST
    ensures h.requested == AdjustTotal(h.Log()) + h.adjustQueue + (if h.adjustCreated then h.adjustAmount else 0)
              + TWO_32 * h.lost
    ensures h.window == (h.initial + AdjustTotal(h.Log()) - h.consumed - h.shortfall) % TWO_32
  {
    hide AdjustTotal;
  }

  /**
   A resumed request credits its argument and not what was sent: 500 octets were
   queued before, 1100 go out, and the window grows by 600.
   */
  method ResumedShort(transport: Transport, queue: Queue) returns (h: ReceiveHalf)
    requires transport.wire == [] && transport.pending == None && queue.Valid() && queue.packets == []
    modifies transport
    ensures h.Valid() && !h.failed && h.initial == 4096 && h.window == 4696
    ensures h.requested == 1100 && AdjustTotal(h.Log()) == 1100 && h.shortfall == 500
  {
    hide ReceiveHalf.Valid, ReceiveHalf.Log, MessagesOf, AdjustTotal, ServedOnly;
    NothingSent(transport, queue);
    h := new ReceiveHalf(0, transport, queue, 0, 0, 4096, 32768, false);
    QueueFirst(h, 500);
    SendResumed(h, 600, false, 1);
    LedgerOf(h);
  }

  lemma {:induction false} NothingSent(transport: Transport, queue: Queue)
    requires transport.wire == [] && queue.packets == []
    ensures MessagesOf(transport.wire, 0) == [] && Total(queue.packets, 0) == 0
  {
  }

  /** After 500 octets were queued, a request for 2^32-1 wraps: 499 octets are queued, and nothing is ever sent. */
  method WrappedRequest(transport: Transport, queue: Queue) returns (h: ReceiveHalf)
    requires transport.wire == [] && transport.pending == None && queue.Valid() && queue.packets == []
    modifies transport
    ensures h.Valid() && !h.failed && h.requested == TWO_32 + 499 && AdjustTotal(h.Log()) == 0 && h.adjustQueue == 499
  {
    hide ReceiveHalf.Valid, ReceiveHalf.Log, MessagesOf, AdjustTotal, ServedOnly;
    NothingSent(transport, queue);
    h := new ReceiveHalf(0, transport, queue, 0, 0, 4096, 32768, false);
    QueueFirst(h, 500);
    QueueWrapped(h, TWO_32 - 1);
    LedgerOf(h);
  }

  /** A request that wraps to a small amount is queued as that amount. */
  method QueueWrapped(h: ReceiveHalf, n: uint32)
    requires h.Valid() && !h.adjustCreated && !h.readBlocked && !h.failed
    requires TWO_32 <= n + h.adjustQueue < TWO_32 + MIN_ADJUST
    modifies h, h.transport
    ensures h.Valid() && !h.adjustCreated && !h.failed && h.adjustQueue == old(h.adjustQueue) + n - TWO_32
    ensures h.requested == old(h.requested) + n && h.lost == old(h.lost) + 1
  {
    hide ReceiveHalf.Valid, ReceiveHalf.Log, MessagesOf, ServedOnly;
    assert (n + h.adjustQueue) % TWO_32 == n + h.adjustQueue - TWO_32;
    var rc := h.ReceiveWindowAdjust(n, false, Sent);
  }

  /** A small request is queued. */
  method QueueFirst(h: ReceiveHalf, n: uint32)
    requires h.Valid() && !h.adjustCreated && !h.readBlocked && h.adjustQueue == 0 && n < MIN_ADJUST
    modifies h, h.transport
    ensures h.Valid() && !h.adjustCreated && !h.readBlocked && h.adjustQueue == n && h.failed == old(h.failed)
    ensures h.requested == old(h.requested) + n && h.lost == old(h.lost)
    ensures h.shortfall == old(h.shortfall) && h.consumed == old(h.consumed)
              && h.transport.pending == old(h.transport.pending)
  {
    hide ReceiveHalf.Valid, ReceiveHalf.Log, MessagesOf, ServedOnly;
    var rc := h.ReceiveWindowAdjust(n, false, Sent);
  }

  /**
   A request that blocks any number of times.  If it blocks at all, what was queued
   before is sent but not credited, in 32 bits: the window grows by exactly what
   is sent if and only if nothing was queued.
   */
  method SendResumed(h: ReceiveHalf, n: uint32, force: bool, blocks: nat)
    requires h.Valid() && !h.adjustCreated && !h.readBlocked && !h.failed && h.transport.pending == None
    requires h.WillSend(n, force)
    modifies h, h.transport
    ensures h.Valid() && !h.adjustCreated && !h.failed && h.adjustQueue == 0
    ensures h.requested == old(h.requested) + n && h.consumed == old(h.consumed)
    ensures h.lost == old(h.lost) + if n + old(h.adjustQueue) >= TWO_32 then 1 else 0
    ensures h.shortfall == old(h.shortfall) + if blocks == 0 then 0 else (n + old(h.adjustQueue)) % TWO_32 - n
    ensures blocks > 0 ==> (h.shortfall == old(h.shortfall) <==> old(h.adjustQueue) == 0)
  {
    hide ReceiveHalf.Valid, ReceiveHalf.Log, MessagesOf, ServedOnly;
    LedgerOf(h);
    ghost var total := (n + h.adjustQueue) % TWO_32;
    for i := 0 to blocks
      invariant h.Valid() && !h.readBlocked && !h.failed && h.consumed == old(h.consumed)
      invariant h.shortfall == old(h.shortfall) && h.transport.pending == h.BlockedMessage()
      invariant i == 0 ==> !h.adjustCreated && h.adjustQueue == old(h.adjustQueue)
                           && h.requested == old(h.requested) && h.lost == old(h.lost)
      invariant i > 0 ==> h.adjustCreated && h.adjustQueue == 0 && h.adjustAmount == total && h.blockedArg == n
                          && h.requested == old(h.requested) + n
                          && h.lost == old(h.lost) + if n + old(h.adjustQueue) >= TWO_32 then 1 else 0
    {
      var rc := h.ReceiveWindowAdjust(n, force, Again);
    }
    var rc := h.ReceiveWindowAdjust(n, force, Sent);
  }

  /** The laws of the receiving half, in terms of the wire, the queue and what callers asked for. */
  ghost predicate Balanced(h: ReceiveHalf)
    reads h, h.transport, h.queue
  {
    var sent := AdjustTotal(MessagesOf(h.transport.wire, h.owner));
    // the counter is the recomputed sum
    && h.readAvail == Total(h.queue.packets, h.id)
    && (!h.failed ==>
          // all that was asked for is sent, queued or blocked, less full turns of the 32-bit sum
          && h.adjustQueue < 1024
          && h.requested == sent + h.adjustQueue + (if h.adjustCreated then h.adjustAmount else 0) + TWO_32 * h.lost
          // the window is what was granted less what was taken
          && h.window == (h.initial + sent - h.consumed - h.shortfall) % TWO_32
          && (!h.overflowed ==> h.window == h.initial + sent - h.consumed - h.shortfall >= h.readAvail))
    // with reads only, nothing wraps for small enough buffers, and until it does the window stays in its bounds
    && (h.readsOnly && !h.failed && h.initial >= 4096 ==>
          && (h.initial + h.maxBuf < TWO_32 ==> !h.overflowed)
          && (!h.overflowed && Fits(h.initial, h.maxBuf) ==>
                h.initial / 4 * 3 <= h.window <= h.initial + h.maxBuf && h.lost == 0 && h.shortfall == 0))
  }

  lemma {:induction false} IsBalanced(h: ReceiveHalf)
    requires h.Valid()
    ensures Balanced(h)
  {
    hide Total, MessagesOf, AdjustTotal;
  }
}
