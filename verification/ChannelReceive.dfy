/**
 The receiving half of a channel: packets that arrive are queued under the
 receive window, reads take them out of the shared queue and enlarge the window
 again.  The `remote` part of the C channel structure and the read and adjust
 state variables live here.
 */
module ChannelReceive {
  import opened Bytes
  import opened Transport
  import opened PacketQueue

  const MIN_ADJUST := 1024

  /** What a read returns: octets, end of data, would block, or an error. */
  datatype ReadRc = Bytes(n: nat) | EndOfData | WouldBlock | Error

  /** A channel message from the peer. */
  datatype Inbound = InData(kind: Kind, stream: int, payload: seq<byte>) | InEof | InClose

  class Queue {
    var packets: seq<Packet>
    /** All that happened to the queue. */
    ghost var history: seq<Event>

    ghost predicate Valid()
      reads this
    {
      packets == After(history)
    }

    constructor ()
      ensures Valid() && packets == [] && history == []
    {
      packets, history := [], [];
    }

    /** Octets that reads have returned so far. */
    ghost function Got(r: Reader): seq<byte>
      reads `history
    {
      Returned(history, r)
    }

    /** Octets that have arrived so far. */
    ghost function Came(r: Reader): seq<byte>
      reads `history
    {
      Arrived(history, r)
    }

    /** One event; `packets` has been changed accordingly. */
    ghost method Record(e: Event, before: seq<Packet>)
      requires before == After(history) && packets == Next(before, e)
      modifies `history
      ensures Valid() && history == old(history) + [e]
      ensures forall r :: Got(r) == old(Got(r)) + if e.Take? && e.r == r then Drain(before, r, e.n).bytes else []
      ensures forall r :: Came(r) == old(Came(r)) + if e.Arrive? && Selects(r, e.p) then e.p.unread else []
    {
      hide After, Returned, Next, Drain, Arrived;
      RunSnoc(history, e, Reader(0, 0, false));
      forall r {
        RunSnoc(history, e, r);
      }
      history := history + [e];
    }
  }

  /** Below this window, with the buffer added, a read asks for more. */
  function LowMark(initial: uint32): (n: uint32) { initial / 4 * 3 }

  lemma LowMarkIs(initial: uint32)
    ensures LowMark(initial) == initial / 4 * 3
  {
  }

  /** How much a read asks the window to grow, in 32 bits. */
  function AdjustmentFor(initial: uint32, window: uint32, len: nat): (a: uint32)
    ensures a >= MIN_ADJUST
  {
    var a := (initial + len - window) % TWO_32;
    if a < MIN_ADJUST then MIN_ADJUST else a
  }

  /**
   What a read under a wide enough window answers: an error where draining the
   input broke; else all that waits for it and fits; and with nothing to give,
   the end of data unless the peer may still send and draining would block.
   */
  function ReadAnswer(result: ReadResult, ended: bool, waits: seq<byte>, room: nat): ReadRc {
    if result == Broken then Error
    else if Min(room, |waits|) > 0 then Bytes(Min(room, |waits|))
    else if ended || result != Blocked then EndOfData
    else WouldBlock
  }

  class ReceiveHalf {
    const owner: nat
    const transport: Transport
    const queue: Queue
    const id: nat
    const remoteId: nat
    const initial: uint32
    const packetSize: uint32
    const merge: bool
    var window: uint32
    var readAvail: nat
    var eof: bool
    var closed: bool
    var adjustQueue: uint32
    var adjustCreated: bool
    var adjustAmount: uint32
    var readBlocked: bool
    /** All octets that callers asked to add to the window. */
    ghost var requested: nat
    /** Times a request was cut to 32 bits together with the queued amount. */
    ghost var lost: nat
    /** Octets that reads and flushes took off the window. */
    ghost var consumed: nat
    /** Octets sent in adjust messages but not credited, by resumed calls. */
    ghost var shortfall: int
    /** A credit took the 32-bit window past its largest value. */
    ghost var overflowed: bool
    /** A send of an adjust message failed hard. */
    ghost var failed: bool
    /** Arguments of a blocked call. */
    ghost var blockedArg: uint32
    ghost var blockedLen: nat
    /** Only reads touched the window so far, with buffers of at most `maxBuf`. */
    ghost var readsOnly: bool
    ghost var maxBuf: nat

    /** What this half has put on the wire. */
    ghost function Log(): seq<Message>
      reads transport
    {
      MessagesOf(transport.wire, owner)
    }

    /** The cached counter is the number of octets queued for the channel. */
    ghost predicate CounterLaw()
      reads `readAvail, queue
    {
      queue.Valid() && readAvail == Total(queue.packets, id)
    }

    /** The message that this half has blocked, if any. */
    ghost function BlockedMessage(): Option<Owned>
      reads `adjustCreated, `adjustAmount
    {
      if adjustCreated then Some(Owned(owner, AdjustMsg(remoteId, adjustAmount))) else None
    }

    /** No other sender's message is blocked. */
    predicate Unhindered()
      reads transport
    {
      transport.pending.Some? ==> transport.pending.value.owner == owner
    }

    /** An adjust message is blocked in the transport exactly while one is created. */
    ghost predicate BlockedLaw()
      reads `readBlocked, `adjustCreated, `adjustAmount, `window, `failed, `blockedArg, `blockedLen, transport
    {
      && (readBlocked ==> adjustCreated)
      && (!failed && transport.pending.Some? && transport.pending.value.owner == owner ==> adjustCreated)
      && (adjustCreated && !failed ==> transport.pending == Some(Owned(owner, AdjustMsg(remoteId, adjustAmount))))
      && (readBlocked && !failed ==> blockedArg == AdjustmentFor(initial, window, blockedLen))
    }

    /** Everything asked for is on the wire, queued or blocked. */
    ghost predicate Ledger()
      reads `adjustQueue, `adjustCreated, `adjustAmount, `requested, `lost, `failed, transport
    {
      !failed ==>
        && adjustQueue < MIN_ADJUST && (adjustCreated ==> adjustQueue == 0)
        && requested == AdjustTotal(Log()) + adjustQueue + (if adjustCreated then adjustAmount else 0) + TWO_32 * lost
    }

    /** What the peer may still send. */
    ghost function Credit(): int
      reads `consumed, `shortfall, transport
    {
      initial + AdjustTotal(Log()) - consumed - shortfall
    }

    /** The window is the credit, in 32 bits, and covers what is queued. */
    ghost predicate WindowLaw()
      reads `window, `readAvail, `consumed, `shortfall, `overflowed, `failed, transport
    {
      && (!failed ==> window == Credit() % TWO_32)
      && (!overflowed ==> readAvail <= window)
      && (!failed && !overflowed ==> window == Credit())
    }

    /** With reads only, the window stays within three quarters of its size and one buffer more. */
    ghost predicate ReadLaw()
      reads `window, `readBlocked, `adjustCreated, `adjustAmount, `adjustQueue, `blockedArg, `blockedLen,
            `lost, `shortfall, `overflowed, `failed, `readsOnly, `maxBuf
    {
      && (BoundsApply() ==>
            && LowMark(initial) <= window <= initial + maxBuf
            && lost == 0 && shortfall == 0 && adjustQueue == 0 && adjustCreated == readBlocked
            && (readBlocked ==>
                blockedLen <= maxBuf && window < LowMark(initial) + blockedLen && adjustAmount == blockedArg))
      && (readsOnly && !failed && initial >= 4096 && initial + maxBuf < TWO_32 ==> !overflowed)
    }

    ghost predicate Valid()
      reads this, transport, queue
    {
      CounterLaw() && BlockedLaw() && Ledger() && WindowLaw() && ReadLaw()
    }

    /** An opened channel. */
    constructor (owner: nat, transport: Transport, queue: Queue, id: nat, remoteId: nat,
                 initial: uint32, packetSize: uint32, merge: bool)
      requires MessagesOf(transport.wire, owner) == [] && queue.Valid() && Total(queue.packets, id) == 0
      requires transport.pending.Some? ==> transport.pending.value.owner != owner
      ensures Valid() && this.transport == transport && this.queue == queue && this.id == id && this.owner == owner
      ensures this.initial == initial && this.remoteId == remoteId && window == initial && lost == 0
      ensures readsOnly && maxBuf == 0 && !failed && !adjustCreated && adjustQueue == 0
      ensures requested == 0 && consumed == 0 && shortfall == 0 && !readBlocked
    {
      this.owner, this.transport, this.queue, this.id, this.remoteId := owner, transport, queue, id, remoteId;
      this.initial, this.packetSize, this.merge := initial, packetSize, merge;
      window, readAvail, eof, closed := initial, 0, false, false;
      adjustQueue, adjustCreated, adjustAmount, readBlocked := 0, false, 0, false;
      requested, lost, consumed, shortfall, overflowed, failed := 0, 0, 0, 0, false, false;
      blockedArg, blockedLen, readsOnly, maxBuf := 0, 0, true, 0;
    }

    // ---- Arrivals

    /**
     A data packet arrives: it is cut to the packet size and to the window that
     is left, dropped when the window is full, and queued otherwise.
     */
    method Deliver(m: Inbound)
      requires Valid() && IsData(m)
      modifies `readAvail, `eof, `closed, queue
      ensures Valid()
      ensures forall c :: c != id ==> Total(queue.packets, c) == old(Total(queue.packets, c))
      ensures !m.InData? ==> eof && closed == (old(closed) || m.InClose?)
      ensures m.InData? ==> closed == old(closed) && eof == (old(eof) && window <= old(readAvail))
      ensures forall r :: queue.Got(r) == old(queue.Got(r))
      ensures m.InData? ==>
                queue.packets == old(queue.packets)
                  + if window <= old(readAvail) then []
                    else [Packet(m.kind, id, m.stream,
                                 m.payload[..Min(Min(|m.payload|, packetSize), window - old(readAvail))])]
      ensures var p := Taken(m, id, packetSize, window, old(readAvail));
              && queue.packets == old(queue.packets) + p && readAvail == old(readAvail) + Octets(p)
              && queue.history == old(queue.history) + Arrivals(p)
      ensures forall r :: queue.Came(r) == old(queue.Came(r))
                + Unread(Taken(m, id, packetSize, window, old(readAvail)), r)
    {
      hide ReceiveHalf.Ledger, ReceiveHalf.BlockedLaw, ReceiveHalf.ReadLaw, ReceiveHalf.WindowLaw,
           ReceiveHalf.CounterLaw,
           Total, Unread, Arrivals, Octets, Arrived, Returned, Selects, IsData;
      NoPackets(id);
      match m {
        case InEof => eof := true;
        case InClose => closed, eof := true, true;
        case InData(kind, stream, payload) =>
          var n := |payload|;
          if packetSize < n {
            n := packetSize;
          }
          if window <= readAvail {
            return;
          }
          eof := false;
          if readAvail + n > window {
            n := window - readAvail;
          }
          var p := Packet(kind, id, stream, payload[..n]);
          OnePacket(p);
          DataOf(m);
          Enqueue(p);
      }
    }

    /** Queues a packet and counts it. */
    method Enqueue(p: Packet)
      requires Valid() && p.channel == id && (p.kind == Data || p.kind == Extended) && readAvail + |p.unread| <= window
      modifies `readAvail, queue
      ensures Valid() && queue.packets == old(queue.packets) + [p] && readAvail == old(readAvail) + |p.unread|
      ensures queue.history == old(queue.history) + [Arrive(p)]
      ensures forall c :: c != id ==> Total(queue.packets, c) == old(Total(queue.packets, c))
      ensures forall r :: queue.Got(r) == old(queue.Got(r))
      ensures forall r :: queue.Came(r) == old(queue.Came(r)) + if Selects(r, p) then p.unread else []
    {
      hide ReceiveHalf.Ledger, ReceiveHalf.BlockedLaw, ReceiveHalf.ReadLaw, MessagesOf, AdjustTotal, Total,
           After, Returned, Arrived, Drain, Kept, Selects;
      forall c {
        TotalSnoc(queue.packets, p, c);
      }
      readAvail := readAvail + |p.unread|;
      ghost var before := queue.packets;
      queue.packets := queue.packets + [p];
      queue.Record(Arrive(p), before);
    }

    // ---- Window adjustment

    /** Puts one adjust message on the wire, as this half's only message kind. */
    method Put(amount: uint32, outcome: SendResult) returns (rc: SendResult)
      modifies transport
      ensures rc == Sent ==> AdjustTotal(Log()) == old(AdjustTotal(Log())) + amount && transport.pending == None
      ensures rc == Sent ==> Log() == old(Log()) + [AdjustMsg(remoteId, amount)]
      ensures rc != Sent ==> Log() == old(Log())
      ensures rc == Again ==> transport.pending == Some(Owned(owner, AdjustMsg(remoteId, amount)))
      ensures rc == Failed ==> transport.pending == old(transport.pending)
      ensures rc == if old(transport.pending) in {None, Some(Owned(owner, AdjustMsg(remoteId, amount)))}
                    then outcome else Failed
      ensures ServedOnly(old(transport.Now()), transport.Now(), owner)
    {
      MessagesSnoc(transport.wire, Owned(owner, AdjustMsg(remoteId, amount)), owner);
      AdjustTotalSnoc(Log(), AdjustMsg(remoteId, amount));
      rc := transport.Send(owner, AdjustMsg(remoteId, amount), outcome);
    }

    /** The idle state: small amounts are queued, larger ones become a message. */
    method Collect(adjustment: uint32, force: bool) returns (send: bool)
      requires Ledger() && !adjustCreated
      modifies `adjustQueue, `adjustCreated, `adjustAmount, `requested, `lost, `blockedArg
      ensures requested == old(requested) + adjustment
      ensures lost == old(lost) + if adjustment + old(adjustQueue) >= TWO_32 then 1 else 0
      ensures send == adjustCreated && (send ==> adjustQueue == 0 && blockedArg == adjustment)
      ensures send <==> (force || (adjustment + old(adjustQueue)) % TWO_32 >= MIN_ADJUST)
                        && (adjustment != 0 || old(adjustQueue) != 0)
      ensures (if send then adjustAmount else adjustQueue) == (adjustment + old(adjustQueue)) % TWO_32
      ensures Ledger()
    {
      hide MessagesOf, AdjustTotal;
      ghost var total := adjustment + adjustQueue;
      requested := requested + adjustment;
      if total >= TWO_32 {
        assert total % TWO_32 == total - TWO_32;
        lost := lost + 1;
      }
      if !force && (adjustment + adjustQueue) % TWO_32 < MIN_ADJUST {
        adjustQueue := (adjustQueue + adjustment) % TWO_32;
        return false;
      }
      if adjustment == 0 && adjustQueue == 0 {
        return false;
      }
      blockedArg := adjustment;
      adjustAmount := (adjustment + adjustQueue) % TWO_32;
      adjustQueue := 0;
      adjustCreated := true;
      return true;
    }

    /**
     Sends the created message.  A call that finishes at once credits what it
     sends; a resumed call credits only its argument, not a queued amount that
     went into the message before.
     */
    method SendAdjust(credit: uint32, outcome: SendResult) returns (rc: Rc)
      requires adjustCreated && Ledger() && WindowLaw()
      modifies `window, `adjustQueue, `adjustCreated, `shortfall, `overflowed, `failed, transport
      ensures ServedOnly(old(transport.Now()), transport.Now(), owner)
      ensures Ledger() && WindowLaw()
      ensures rc == Eagain ==> && adjustCreated && window == old(window) && failed == old(failed) && Log() == old(Log())
                               && transport.pending == Some(Owned(owner, AdjustMsg(remoteId, adjustAmount)))
      ensures rc == Ok ==> outcome == Sent && transport.pending == None
      ensures outcome == Sent && old(transport.pending).None? ==> transport.pending.None?
      ensures rc == Eagain ==>
                shortfall == old(shortfall) && overflowed == old(overflowed) && adjustQueue == old(adjustQueue)
      ensures rc == Err ==> failed && adjustCreated && window == old(window)
      ensures rc == Ok ==> && !adjustCreated && failed == old(failed) && window == (old(window) + credit) % TWO_32
                           && Log() == old(Log()) + [AdjustMsg(remoteId, adjustAmount)]
                           && shortfall == old(shortfall) + adjustAmount - credit
                           && overflowed == (old(overflowed) || old(window) + credit >= TWO_32)
                           && adjustQueue == old(adjustQueue)
      ensures rc == if old(transport.pending) in {None, Some(Owned(owner, AdjustMsg(remoteId, adjustAmount)))}
                    then (match outcome case Sent => Ok case Again => Eagain case Failed => Err) else Err
    {
      hide MessagesOf, AdjustTotal;
      AddMod(Credit(), credit);
      var sent := Put(adjustAmount, outcome);
      match sent {
        case Again => return Eagain;
        case Failed =>
          adjustQueue := credit;
          failed := true;
          return Err;
        case Sent =>
      }
      overflowed := overflowed || window + credit >= TWO_32;
      shortfall := shortfall + adjustAmount - credit;
      window := (window + credit) % TWO_32;
      adjustCreated := false;
      return Ok;
    }

    /**
     What `receive_window_adjust` does, given its result.  `total` is the
     requested amount with what was queued before.
     */
    twostate predicate AdjustEffect(adjustment: uint32, force: bool, rc: Rc)
      reads this, transport
    {
      var total := (adjustment + old(adjustQueue)) % TWO_32;
      var sends := (force || total >= MIN_ADJUST) && (adjustment != 0 || old(adjustQueue) != 0);
      var amount := if old(adjustCreated) then old(adjustAmount) else total;
      var credit := if old(adjustCreated) then adjustment else total;
      && requested == old(requested) + (if old(adjustCreated) then 0 else adjustment)
      && lost == old(lost) + (if !old(adjustCreated) && adjustment + old(adjustQueue) >= TWO_32 then 1 else 0)
      && (rc == Err ==> failed && adjustCreated && window == old(window))
      && (rc != Err ==> failed == old(failed))
      && (!old(adjustCreated) && !sends ==>
            && rc == Ok && adjustQueue == total && !adjustCreated
            && window == old(window) && overflowed == old(overflowed) && shortfall == old(shortfall)
            && unchanged(transport))
      && (rc == Ok && (old(adjustCreated) || sends) ==>
            && !adjustCreated && transport.pending == None && Log() == old(Log()) + [AdjustMsg(remoteId, amount)]
            && window == (old(window) + credit) % TWO_32 && shortfall == old(shortfall) + amount - credit
            && overflowed == (old(overflowed) || old(window) + credit >= TWO_32)
            && adjustQueue == (if old(adjustCreated) then old(adjustQueue) else 0))
      && (rc == Eagain ==>
            && adjustCreated && adjustAmount == amount
            && blockedArg == (if old(adjustCreated) then old(blockedArg) else adjustment)
            && transport.pending == Some(Owned(owner, AdjustMsg(remoteId, amount))) && Log() == old(Log())
            && window == old(window) && overflowed == old(overflowed) && shortfall == old(shortfall)
            && adjustQueue == (if old(adjustCreated) then old(adjustQueue) else 0))
    }

    /** A new request leads to a message: it is forced or large enough, and not empty. */
    ghost predicate WillSend(adjustment: uint32, force: bool)
      reads `adjustQueue
    {
      && (force || (adjustment + adjustQueue) % TWO_32 >= MIN_ADJUST)
      && (adjustment != 0 || adjustQueue != 0)
    }

    /** What `receive_window_adjust` answers: an error where another message is blocked, or what the socket does. */
    ghost function AdjustRc(adjustment: uint32, force: bool, outcome: SendResult): Rc
      reads `adjustQueue, `adjustCreated, `adjustAmount, transport
    {
      var amount := if adjustCreated then adjustAmount else (adjustment + adjustQueue) % TWO_32;
      if !adjustCreated && !WillSend(adjustment, force) then Ok
      else if transport.pending in {None, Some(Owned(owner, AdjustMsg(remoteId, amount)))}
      then match outcome case Sent => Ok case Again => Eagain case Failed => Err
      else Err
    }

    /** What widening the window for a buffer answers; a wide enough window needs none. */
    ghost function WidenRc(len: nat, outcome: SendResult): Rc
      reads `adjustQueue, `adjustCreated, `adjustAmount, `readBlocked, `window, transport
    {
      if readBlocked || window < LowMark(initial) + len
      then AdjustRc(AdjustmentFor(initial, window, len), false, outcome) else Ok
    }

    /** The core of `receive_window_adjust`; what only reads may rely on is left to its callers. */
    method AdjustCore(adjustment: uint32, force: bool, outcome: SendResult) returns (rc: Rc)
      requires Ledger() && WindowLaw()
      modifies `window, `adjustQueue, `adjustCreated, `adjustAmount, `requested, `lost, `blockedArg,
               `shortfall, `overflowed, `failed, transport
      ensures ServedOnly(old(transport.Now()), transport.Now(), owner)
      ensures Ledger() && WindowLaw() && AdjustEffect(adjustment, force, rc)
      ensures outcome == Sent && old(transport.pending).None? ==> transport.pending.None?
      ensures old(transport.pending) == old(BlockedMessage()) ==>
                rc == Ok || rc == match outcome case Sent => Ok case Again => Eagain case Failed => Err
      ensures (old(adjustCreated) || old(WillSend(adjustment, force))) && outcome == Again ==> rc != Ok
      ensures rc == old(AdjustRc(adjustment, force, outcome))
    {
      hide ReceiveHalf.Ledger, ReceiveHalf.WindowLaw, MessagesOf;
      if !adjustCreated {
        var send := Collect(adjustment, force);
        if !send {
          return Ok;
        }
        rc := SendAdjust(adjustAmount, outcome);
      } else {
        rc := SendAdjust(adjustment, outcome);
      }
    }

    /**
     Enlarges the window on request.  A blocked call must be repeated with the
     same amount before anything else touches the window.
     */
    method ReceiveWindowAdjust(adjustment: uint32, force: bool, outcome: SendResult) returns (rc: Rc)
      requires Valid() && !readBlocked
      requires adjustCreated && !failed ==> adjustment == blockedArg
      modifies `window, `adjustQueue, `adjustCreated, `adjustAmount, `requested, `lost, `blockedArg,
               `shortfall, `overflowed, `failed, `readsOnly, transport
      ensures ServedOnly(old(transport.Now()), transport.Now(), owner)
      ensures Valid() && AdjustEffect(adjustment, force, rc)
      ensures !old(failed) && old(Unhindered()) && outcome != Failed ==> !failed
      ensures outcome == Sent && old(transport.pending).None? ==> transport.pending.None?
      ensures old(transport.pending) == old(BlockedMessage()) ==>
                rc == Ok || rc == match outcome case Sent => Ok case Again => Eagain case Failed => Err
      ensures (old(adjustCreated) || old(WillSend(adjustment, force))) && outcome == Again ==> rc != Ok
      ensures rc == old(AdjustRc(adjustment, force, outcome))
    {
      hide ReceiveHalf.Ledger, ReceiveHalf.WindowLaw, ReceiveHalf.CounterLaw, MessagesOf, ServedOnly,
           ReceiveHalf.WillSend, LowMark, Fits;
      rc := AdjustCore(adjustment, force, outcome);
      readsOnly := false;
    }

    // ---- Reading

    /** The first part of a read: enlarge the window when it has become too narrow. */
    method ExpandWindow(len: nat, outcome: SendResult) returns (rc: Rc)
      requires Valid() && (readBlocked ==> len == blockedLen) && (adjustCreated ==> readBlocked)
      modifies `window, `adjustQueue, `adjustCreated, `adjustAmount, `requested, `lost, `blockedArg, `blockedLen,
               `shortfall, `overflowed, `failed, `readBlocked, `maxBuf, transport
      ensures ServedOnly(old(transport.Now()), transport.Now(), owner)
      ensures Valid() && maxBuf == if len > old(maxBuf) then len else old(maxBuf)
      ensures rc == Ok ==> !readBlocked && !adjustCreated
      ensures rc != Ok ==> readBlocked
      ensures (readBlocked ==> blockedLen == len) && (adjustCreated ==> readBlocked)
      ensures rc == Ok && BoundsApply() ==> LowMark(initial) + len <= window
      ensures old(transport.pending) == old(BlockedMessage()) && outcome == Sent ==> rc == Ok
      // a completed adjustment from within the bounds: exactly where it takes the window, and when that is in bounds
      ensures rc == Ok && old(Narrow(len)) && len < 0x8000_0000 ==>
                && window == (initial + len) % TWO_32
                && (LowMark(initial) <= window <= initial + len <==> initial + len < TWO_32)
      ensures !old(failed) && old(Unhindered()) && outcome != Failed ==> !failed
      ensures outcome == Sent && old(transport.pending).None? ==> transport.pending.None?
      ensures !old(readBlocked) && old(window) >= LowMark(initial) + len ==>
                rc == Ok && window == old(window) && unchanged(transport)
      ensures rc == old(WidenRc(len, outcome))
    {
      BoundExactly(initial, len);
      hide ReceiveHalf.Ledger, ReceiveHalf.WindowLaw, ReceiveHalf.CounterLaw, ReceiveHalf.BlockedLaw, AdjustmentFor,
           LowMark;
      maxBuf := if len > maxBuf then len else maxBuf;
      rc := Ok;
      if readBlocked || window < LowMark(initial) + len {
        rc := Expand(len, outcome);
      }
    }

    /**
     The conditions of the window bounds: reads only, a large enough window, no
     failure, and no adjustment that took the window past 32 bits.
     */
    ghost predicate BoundsApply()
      reads `readsOnly, `failed, `maxBuf, `overflowed
    {
      readsOnly && !failed && !overflowed && initial >= 4096 && Fits(initial, maxBuf)
    }

    /** The window is in its bounds but too narrow for a buffer, and no smaller request is queued. */
    ghost predicate Narrow(len: nat)
      reads `window, `readBlocked, `adjustQueue
    {
      initial >= 4096 && (readBlocked || adjustQueue == 0) && LowMark(initial) <= window < LowMark(initial) + len
    }

    /** Asks for the adjustment; a blocked request is remembered as the read's. */
    method Expand(len: nat, outcome: SendResult) returns (rc: Rc)
      requires Valid() && len <= maxBuf && (readBlocked ==> len == blockedLen) && (adjustCreated ==> readBlocked)
      requires readBlocked || window < LowMark(initial) + len
      modifies `window, `adjustQueue, `adjustCreated, `adjustAmount, `requested, `lost, `blockedArg, `blockedLen,
               `shortfall, `overflowed, `failed, `readBlocked, transport
      ensures ServedOnly(old(transport.Now()), transport.Now(), owner)
      ensures Valid()
      ensures rc == Ok ==> !readBlocked && !adjustCreated
      ensures rc != Ok ==> readBlocked
      ensures (readBlocked ==> blockedLen == len) && (adjustCreated ==> readBlocked)
      ensures rc == Ok && BoundsApply() ==> window == initial + len && LowMark(initial) <= initial
      ensures old(transport.pending) == old(BlockedMessage()) && outcome == Sent ==> rc == Ok
      ensures rc == Ok && old(Narrow(len)) && Fits(initial, len) ==> window == (initial + len) % TWO_32
      ensures !old(failed) && old(Unhindered()) && outcome != Failed ==> !failed
      ensures outcome == Sent && old(transport.pending).None? ==> transport.pending.None?
      ensures rc == old(WidenRc(len, outcome))
    {
      hide ReceiveHalf.Ledger, ReceiveHalf.WindowLaw, ReceiveHalf.CounterLaw, ReceiveHalf.BlockedLaw, AdjustmentFor,
           LowMark, ServedOnly, Fits, ReceiveHalf.Unhindered;
      ExactAdjustment(initial, window, len);
      FitsLess(initial, len, maxBuf);
      BlockedArgument();
      rc := Ask(len, outcome);
    }

    lemma {:induction false} BlockedArgument()
      requires BlockedLaw()
      ensures readBlocked ==> adjustCreated
      ensures readBlocked && !failed ==> blockedArg == AdjustmentFor(initial, window, blockedLen)
    {
      hide AdjustmentFor;
    }

    /** Measures the adjustment and asks for it. */
    method Ask(len: nat, outcome: SendResult) returns (rc: Rc)
      requires Ledger() && WindowLaw() && BlockedLaw()
      requires (readBlocked ==> len == blockedLen) && (adjustCreated ==> readBlocked)
      modifies `window, `adjustQueue, `adjustCreated, `adjustAmount, `requested, `lost, `blockedArg, `blockedLen,
               `shortfall, `overflowed, `failed, `readBlocked, transport
      ensures ServedOnly(old(transport.Now()), transport.Now(), owner)
      ensures Ledger() && WindowLaw() && BlockedLaw()
      ensures rc == Ok ==> !readBlocked && !adjustCreated && failed == old(failed)
      ensures rc != Ok ==> readBlocked && adjustCreated && blockedLen == len
      ensures rc == Err ==> failed
      ensures !old(failed) && old(Unhindered()) && outcome != Failed ==> !failed
      ensures outcome == Sent && old(transport.pending).None? ==> transport.pending.None?
      ensures old(transport.pending) == old(BlockedMessage()) && outcome == Sent ==> rc == Ok
      ensures rc == Eagain ==> && failed == old(failed) && window == old(window) && overflowed == old(overflowed)
                               && (!old(adjustCreated) ==> blockedArg == AdjustmentFor(initial, window, len))
                               && (old(adjustCreated) ==> blockedArg == old(blockedArg))
      ensures rc == Ok && old(overflowed) ==> overflowed
      ensures var a := AdjustmentFor(initial, old(window), len);
              && (rc == Ok && (old(adjustCreated) || old(adjustQueue) == 0) ==>
                    && window == (old(window) + a) % TWO_32
                    && overflowed == (old(overflowed) || old(window) + a >= TWO_32))
              && (old(adjustQueue) == 0 && (old(adjustCreated) ==> old(adjustAmount) == a) && !failed ==>
                    && adjustQueue == 0 && lost == old(lost) && shortfall == old(shortfall)
                    && (rc == Eagain ==> adjustAmount == a))
      ensures rc == old(AdjustRc(AdjustmentFor(initial, window, len), false, outcome))
    {
      hide ReceiveHalf.Ledger, ReceiveHalf.WindowLaw, AdjustmentFor, ServedOnly;
      var adjustment := MeasureAdjustment(len);
      readBlocked := true;
      blockedLen := len;
      rc := Grow(adjustment, outcome);
      if rc == Ok {
        readBlocked := false;
      }
    }

    /** An adjustment large enough to be sent; with nothing queued and no wrap it is exact. */
    method Grow(adjustment: uint32, outcome: SendResult) returns (rc: Rc)
      requires Ledger() && WindowLaw() && adjustment >= MIN_ADJUST
      modifies `window, `adjustQueue, `adjustCreated, `adjustAmount, `requested, `lost, `blockedArg,
               `shortfall, `overflowed, `failed, transport
      ensures ServedOnly(old(transport.Now()), transport.Now(), owner)
      ensures Ledger() && WindowLaw()
      ensures rc == Ok ==> !adjustCreated && failed == old(failed)
      ensures rc == Ok ==>
                transport.pending == None || (transport.pending == old(transport.pending) && !old(adjustCreated))
      ensures rc == Err ==> failed && adjustCreated
      ensures outcome == Sent && old(transport.pending).None? ==> transport.pending.None?
      ensures old(transport.pending) == old(BlockedMessage()) && outcome != Failed ==> rc != Err
      ensures old(transport.pending) == old(BlockedMessage()) && outcome == Sent ==> rc == Ok
      ensures rc == Ok && (old(adjustCreated) || old(adjustQueue) == 0) ==>
                && window == (old(window) + adjustment) % TWO_32
                && overflowed == (old(overflowed) || old(window) + adjustment >= TWO_32)
      ensures rc == Eagain ==> && adjustCreated && failed == old(failed) && window == old(window)
                               && blockedArg == (if old(adjustCreated) then old(blockedArg) else adjustment)
                               && transport.pending == Some(Owned(owner, AdjustMsg(remoteId, adjustAmount)))
      ensures old(adjustQueue) == 0 && (old(adjustCreated) ==> old(adjustAmount) == adjustment) && !failed ==>
                && adjustQueue == 0 && lost == old(lost) && shortfall == old(shortfall)
                && (rc == Eagain ==> adjustAmount == adjustment && overflowed == old(overflowed))
      ensures rc == Eagain ==> overflowed == old(overflowed)
      ensures rc == Ok && old(overflowed) ==> overflowed
      ensures rc == old(AdjustRc(adjustment, false, outcome))
    {
      hide ReceiveHalf.Ledger, ReceiveHalf.WindowLaw, MessagesOf, ServedOnly;
      rc := AdjustCore(adjustment, false, outcome);
    }

    /** How much the window is to grow for a buffer. */
    method MeasureAdjustment(len: nat) returns (adjustment: uint32)
      ensures adjustment == AdjustmentFor(initial, window, len)
    {
      adjustment := (initial + len - window) % TWO_32;
      if adjustment < MIN_ADJUST {
        adjustment := MIN_ADJUST;
      }
    }

    /** The last part of a read: copy what is queued for the reader into the buffer. */
    method DrainInto(stream: int, buf: array<byte>) returns (n: nat)
      requires queue.Valid()
      modifies queue, buf
      ensures queue.Valid() && queue.history == old(queue.history) + [Take(Reader(id, stream, merge), buf.Length)]
      ensures n <= buf.Length && forall r :: queue.Came(r) == old(queue.Came(r))
      ensures forall r :: queue.Got(r) == old(queue.Got(r)) + if r == Reader(id, stream, merge) then buf[..n] else []
      ensures var d := Drain(old(queue.packets), Reader(id, stream, merge), buf.Length);
              && n == |d.bytes| <= buf.Length && buf[..n] == d.bytes && queue.packets == d.rest
    {
      hide Selects, Drain, Ahead, After, Returned, Arrived, Kept;
      ghost var r := Reader(id, stream, merge);
      ghost var before := queue.packets;
      ghost var d := Drain(before, r, buf.Length);
      n := 0;
      var i := 0;
      AheadAtStart(queue.packets, r, buf.Length);
      while i < |queue.packets| && n < buf.Length
        invariant 0 <= i <= |queue.packets| && n <= buf.Length
        invariant queue.history == old(queue.history)
        invariant Ahead(d, buf[..n], queue.packets, i, r, buf.Length - n)
        decreases |queue.packets| - i
      {
        var p := queue.packets[i];
        AheadOf(d, buf[..n], queue.packets, i, r, buf.Length - n);
        if IsWanted(stream, p) {
          var want := buf.Length - n;
          var unlink := false;
          if want >= |p.unread| {
            want := |p.unread|;
            unlink := true;
          }
          n := Copy(buf, n, p.unread[..want]);
          if unlink {
            assert p.unread[..want] == p.unread;
            queue.packets := queue.packets[..i] + queue.packets[i + 1..];
          } else {
            queue.packets := queue.packets[i := p.(unread := p.unread[want..])];
            i := i + 1;
          }
        } else {
          i := i + 1;
        }
      }
      NothingAhead(d, buf[..n], queue.packets, i, r, buf.Length - n);
      queue.Record(Take(r, buf.Length), before);
    }

    /** The packet is for the stream that is read. */
    predicate IsWanted(stream: int, p: Packet)
      ensures IsWanted(stream, p) == Selects(Reader(id, stream, merge), p)
    {
      || (stream != 0 && p.kind == Extended && id == p.channel && stream == p.stream)
      || (stream == 0 && p.kind == Data && id == p.channel)
      || (stream == 0 && p.kind == Extended && id == p.channel && merge)
    }

    /** Takes what arrives for this channel while the input is drained. */
    method Pump(inbound: seq<Inbound>)
      requires Valid() && AllData(inbound)
      modifies `readAvail, `eof, `closed, queue
      ensures Valid()
      ensures var came := TakenAll(inbound, id, packetSize, window, old(readAvail));
              && queue.packets == old(queue.packets) + came && queue.history == old(queue.history) + Arrivals(came)
              && forall r :: queue.Came(r) == old(queue.Came(r)) + Unread(came, r)
      ensures forall r :: queue.Got(r) == old(queue.Got(r))
      ensures forall c :: c != id ==> Total(queue.packets, c) == old(Total(queue.packets, c))
    {
      hide *;
      ghost var came := [];
      NoneTaken(inbound, id, packetSize, window, readAvail);
      for i := 0 to |inbound|
        invariant Valid() && came == TakenAll(inbound[..i], id, packetSize, window, old(readAvail))
        invariant queue.packets == old(queue.packets) + came && readAvail == old(readAvail) + Octets(came)
        invariant queue.history == old(queue.history) + Arrivals(came)
        invariant forall r :: queue.Came(r) == old(queue.Came(r)) + Unread(came, r)
        invariant forall r :: queue.Got(r) == old(queue.Got(r))
        invariant forall c :: c != id ==> Total(queue.packets, c) == old(Total(queue.packets, c))
      {
        DataAt(inbound, i);
        ghost var p := Taken(inbound[i], id, packetSize, window, readAvail);
        TakenStep(inbound, i, id, packetSize, window, old(readAvail));
        Appended(came, p);
        Deliver(inbound[i]);
        came := came + p;
      }
      assert inbound[..|inbound|] == inbound;
    }

    /** Octets that were read leave the counter and the window. */
    method Consume(n: nat)
      requires BlockedLaw() && Ledger() && WindowLaw() && ReadLaw() && queue.Valid()
      requires n <= readAvail == Total(queue.packets, id) + n
      requires !adjustCreated && (BoundsApply() ==> LowMark(initial) + n <= window)
      modifies `readAvail, `window, `consumed
      ensures Valid() && readAvail == old(readAvail) - n && consumed == old(consumed) + n
      ensures window == (old(window) - n) % TWO_32 && (!overflowed ==> window == old(window) - n)
    {
      hide ReceiveHalf.Ledger, MessagesOf, AdjustTotal, Total, LowMark;
      SubMod(Credit(), n);
      readAvail := readAvail - n;
      window := (window - n) % TWO_32;
      consumed := consumed + n;
    }

    /**
     Reads from a stream into a buffer.  `inbound` is what arrives for the
     channel during the call, `result` is how draining the input ends, `w` is the
     window under which it arrives, and `q` is the queue that the read takes from.
     */
    method Read(stream: int, buf: array<byte>, inbound: seq<Inbound>, result: ReadResult, outcome: SendResult)
      returns (rc: ReadRc, ghost q: seq<Packet>, ghost w: uint32)
      requires Valid() && (readBlocked ==> buf.Length == blockedLen) && (adjustCreated ==> readBlocked)
      requires buf.Length < 0x8000_0000 && AllData(inbound)
      modifies this, queue, transport, buf
      ensures ServedOnly(old(transport.Now()), transport.Now(), owner)
      ensures Valid() && (readBlocked ==> blockedLen == buf.Length) && (adjustCreated ==> readBlocked)
      ensures readsOnly == old(readsOnly) && (maxBuf == if buf.Length > old(maxBuf) then buf.Length else old(maxBuf))
      ensures forall c :: c != id ==> Total(queue.packets, c) == old(Total(queue.packets, c))
      ensures !old(failed) && old(Unhindered()) && outcome != Failed ==> !failed
      ensures outcome == Sent && old(transport.pending).None? ==> transport.pending.None?
      // what arrives and what is taken
      ensures var came := if readBlocked then [] else TakenAll(inbound, id, packetSize, w, old(readAvail));
              && q == old(queue.packets) + came && forall r :: queue.Came(r) == old(queue.Came(r)) + Unread(came, r)
      ensures var came := if readBlocked then [] else TakenAll(inbound, id, packetSize, w, old(readAvail));
              queue.history == old(queue.history) + Arrivals(came)
                + if readBlocked || result == Broken then [] else [Take(Reader(id, stream, merge), buf.Length)]
      ensures !readBlocked && result != Broken ==>
                |queue.history| > 0 && q == After(queue.history[..|queue.history| - 1])
      ensures var r := Reader(id, stream, merge);
              && queue.packets == (if readBlocked || result == Broken then q else Drain(q, r, buf.Length).rest)
              && (rc.Bytes? ==> rc.n <= buf.Length && rc.n <= |Unread(q, r)| && buf[..rc.n] == Unread(q, r)[..rc.n])
              && consumed == old(consumed) + (if rc.Bytes? then rc.n else 0)
              && forall s :: queue.Got(s) == old(queue.Got(s)) + if s == r && rc.Bytes? then buf[..rc.n] else []
      ensures window == (w - (consumed - old(consumed))) % TWO_32
      ensures !old(readBlocked) && old(window) >= initial / 4 * 3 + buf.Length ==> w == old(window)
      ensures !readBlocked && old(Narrow(buf.Length)) ==> w == (initial + buf.Length) % TWO_32
      // the answer
      ensures readBlocked <==> old(WidenRc(buf.Length, outcome)) != Ok
      ensures readBlocked ==> rc == if old(WidenRc(buf.Length, outcome)) == Eagain then WouldBlock else Error
      ensures !readBlocked ==> rc == ReadAnswer(result, eof || closed, Unread(q, Reader(id, stream, merge)), buf.Length)
      ensures rc == Error <==> || old(WidenRc(buf.Length, outcome)) == Err
                               || (old(WidenRc(buf.Length, outcome)) == Ok && result == Broken)
      ensures old(transport.pending) == old(BlockedMessage()) && outcome == Sent ==> !readBlocked
      ensures !old(readBlocked) && old(window) >= initial / 4 * 3 + buf.Length ==> !readBlocked
    {
      hide ReceiveHalf.Valid, Total, Unread, Drain, LowMark, Returned, Arrived, ServedOnly, TakenAll, Arrivals, After,
           ReceiveHalf.Unhindered, ReceiveHalf.Narrow, ReceiveHalf.WidenRc, ReceiveHalf.BoundsApply, Selects, Min,
               AllData;
      q := queue.packets;
      NoPackets(id);
      LowMarkIs(initial);
      var grown := ExpandWindow(buf.Length, outcome);
      assert queue.history + [] == queue.history && q + [] == q;
      w := window;
      if grown != Ok {
        rc := if grown == Eagain then WouldBlock else Error;
        return;
      }
      rc, q := ReadOn(stream, buf, inbound, result);
    }

    /** The rest of a read, under a wide enough window: drain the input, and take what is queued. */
    method ReadOn(stream: int, buf: array<byte>, inbound: seq<Inbound>, result: ReadResult)
      returns (rc: ReadRc, ghost q: seq<Packet>)
      requires Valid() && !adjustCreated && AllData(inbound)
      requires BoundsApply() ==> LowMark(initial) + buf.Length <= window
      modifies `readAvail, `eof, `closed, `window, `consumed, queue, buf
      ensures Valid()
      ensures forall c :: c != id ==> Total(queue.packets, c) == old(Total(queue.packets, c))
      ensures var came := TakenAll(inbound, id, packetSize, old(window), old(readAvail));
              && q == old(queue.packets) + came && (forall r :: queue.Came(r) == old(queue.Came(r)) + Unread(came, r))
              && queue.history == old(queue.history) + Arrivals(came)
                   + if result == Broken then [] else [Take(Reader(id, stream, merge), buf.Length)]
      ensures result != Broken ==> |queue.history| > 0 && q == After(queue.history[..|queue.history| - 1])
      ensures window == (old(window) - (consumed - old(consumed))) % TWO_32
      ensures rc == ReadAnswer(result, eof || closed, Unread(q, Reader(id, stream, merge)), buf.Length)
      ensures var r := Reader(id, stream, merge);
              && queue.packets == (if result == Broken then q else Drain(q, r, buf.Length).rest)
              && (rc.Bytes? ==> rc.n <= buf.Length && rc.n <= |Unread(q, r)| && buf[..rc.n] == Unread(q, r)[..rc.n])
              && consumed == old(consumed) + (if rc.Bytes? then rc.n else 0)
              && forall s :: queue.Got(s) == old(queue.Got(s)) + if s == r && rc.Bytes? then buf[..rc.n] else []
    {
      hide ReceiveHalf.Valid, Total, Unread, Drain, LowMark, Returned, Arrived, TakenAll, Arrivals, After, Selects, Min;
      Pump(inbound);
      q := queue.packets;
      if result == Broken {
        rc := Error;
        return;
      }
      QueueNow();
      ghost var before := queue.history;
      rc := TakeQueued(stream, buf, result);
      assert queue.history[..|queue.history| - 1] == before;
    }

    lemma {:induction false} QueueNow()
      requires Valid()
      ensures queue.packets == After(queue.history)
    {
      hide ReceiveHalf.Ledger, ReceiveHalf.WindowLaw, ReceiveHalf.BlockedLaw, ReceiveHalf.ReadLaw, Total, After;
    }

    /** The end of a read: what is queued now, or why there is nothing. */
    method TakeQueued(stream: int, buf: array<byte>, result: ReadResult) returns (rc: ReadRc)
      requires Valid() && !adjustCreated && result != Broken
      requires BoundsApply() ==> LowMark(initial) + buf.Length <= window
      modifies `readAvail, `window, `consumed, queue, buf
      ensures Valid() && forall r :: queue.Came(r) == old(queue.Came(r))
      ensures queue.history == old(queue.history) + [Take(Reader(id, stream, merge), buf.Length)]
      ensures forall c :: c != id ==> Total(queue.packets, c) == old(Total(queue.packets, c))
      ensures window == (old(window) - (consumed - old(consumed))) % TWO_32
      ensures var r := Reader(id, stream, merge);
              var waits := Unread(old(queue.packets), r);
              && rc == ReadAnswer(result, eof || closed, waits, buf.Length)
              && (rc.Bytes? ==> rc.n <= buf.Length && rc.n <= |waits| && buf[..rc.n] == waits[..rc.n])
              && queue.packets == Drain(old(queue.packets), r, buf.Length).rest
              && consumed == old(consumed) + (if rc.Bytes? then rc.n else 0)
              && forall s :: queue.Got(s) == old(queue.Got(s)) + if s == r && rc.Bytes? then buf[..rc.n] else []
    {
      hide ReceiveHalf.Ledger, ReceiveHalf.WindowLaw, ReceiveHalf.BlockedLaw, ReceiveHalf.ReadLaw,
           Total, Unread, Drain, LowMark, After, Returned, Arrived;
      ghost var r := Reader(id, stream, merge);
      DrainTakesPrefix(queue.packets, r, buf.Length);
      forall c {
        DrainTotal(queue.packets, r, buf.Length, c);
      }
      var n := DrainInto(stream, buf);
      Consume(n);
      if n == 0 {
        if eof || closed || result != Blocked {
          return EndOfData;
        }
        return WouldBlock;
      }
      return Bytes(n);
    }

    // ---- Looking at the queue

    /** End of file: announced by the peer, and nothing is queued any more. */
    method IsEof() returns (r: bool)
      ensures r <==> eof && forall i :: 0 <= i < |queue.packets| ==> !IsFor(id, queue.packets[i])
    {
      for i := 0 to |queue.packets|
        invariant forall k :: 0 <= k < i ==> !IsFor(id, queue.packets[k])
      {
        var p := queue.packets[i];
        if (p.kind == Data || p.kind == Extended) && id == p.channel {
          return false;
        }
      }
      return eof;
    }

    /** The octets that can be read now, counted afresh, and the window. */
    method WindowRead() returns (queued: nat, size: nat)
      requires Valid()
      ensures queued == Total(queue.packets, id) == readAvail && size == window
    {
      hide ReceiveHalf.Ledger, ReceiveHalf.WindowLaw, ReceiveHalf.BlockedLaw, ReceiveHalf.ReadLaw, IsFor;
      queued := 0;
      var i := 0;
      assert queue.packets[0..] == queue.packets;
      while i < |queue.packets|
        invariant 0 <= i <= |queue.packets|
        invariant queued + Total(queue.packets[i..], id) == Total(queue.packets, id)
      {
        assert queue.packets[i..][1..] == queue.packets[i + 1..];
        if IsFor(id, queue.packets[i]) {
          queued := queued + |queue.packets[i].unread|;
        }
        i := i + 1;
      }
      size := window;
    }

    /** Drops what is queued for a stream, or for all or all extended streams. */
    method Flush(stream: int) returns (flushed: nat)
      requires Valid() && !adjustCreated
      modifies queue, `readAvail, `window, `consumed, `readsOnly
      ensures Valid() && queue.packets == Kept(old(queue.packets), id, stream)
      ensures queue.history == old(queue.history) + [Drop(id, stream)] && forall r :: queue.Got(r) == old(queue.Got(r))
      ensures readAvail == old(readAvail) - flushed && consumed == old(consumed) + flushed
      ensures forall c :: c != id ==> Total(queue.packets, c) == old(Total(queue.packets, c))
    {
      hide ReceiveHalf.Ledger, ReceiveHalf.WindowLaw, ReceiveHalf.BlockedLaw, ReceiveHalf.ReadLaw, Kept, Total, Flushes,
           After, Returned, Drain;
      ghost var all := queue.packets;
      forall c {
        KeptTotal(all, id, stream, c);
      }
      flushed := 0;
      var i := 0;
      assert all[0..] == all;
      while i < |queue.packets|
        invariant 0 <= i <= |queue.packets|
        invariant queue.packets[..i] + Kept(queue.packets[i..], id, stream) == Kept(all, id, stream)
        invariant flushed + Dropped(queue.packets[i..], id, stream) == Dropped(all, id, stream)
        invariant queue.history == old(queue.history)
        modifies queue
        decreases |queue.packets| - i
      {
        var p := queue.packets[i];
        ghost var kept, tail := queue.packets[..i], queue.packets[i + 1..];
        KeptStep(queue.packets, i, id, stream);
        if Flushes(p, id, stream) {
          flushed := flushed + |p.unread|;
          queue.packets := queue.packets[..i] + queue.packets[i + 1..];
          assert queue.packets[..i] == kept && queue.packets[i..] == tail;
        } else {
          assert queue.packets[..i + 1] == kept + [p];
          i := i + 1;
        }
      }
      KeptNone(queue.packets, i, id, stream);
      assert queue.packets[..i] + [] == queue.packets;
      queue.Record(Drop(id, stream), all);
      readsOnly := false;
      ConsumeFlushed(flushed);
    }

    /** The counter and the window after a flush. */
    method ConsumeFlushed(n: nat)
      requires BlockedLaw() && Ledger() && WindowLaw() && !readsOnly && queue.Valid()
      requires n <= readAvail == Total(queue.packets, id) + n
      requires !adjustCreated
      modifies `readAvail, `window, `consumed
      ensures Valid() && readAvail == old(readAvail) - n && consumed == old(consumed) + n
    {
      hide ReceiveHalf.Ledger, MessagesOf, AdjustTotal, Total;
      SubMod(Credit(), n);
      readAvail := readAvail - n;
      window := (window - n) % TWO_32;
      consumed := consumed + n;
    }
  }

  // ---- What arrives

  /** The packet that is queued for a message: cut to the packet size and to the window that is left. */
  function Taken(m: Inbound, id: nat, packetSize: uint32, window: uint32, avail: nat): seq<Packet> {
    if !m.InData? || window <= avail then []
    else [Packet(m.kind, id, m.stream, m.payload[..Min(Min(|m.payload|, packetSize), window - avail)])]
  }

  function Octets(packets: seq<Packet>): nat {
    if packets == [] then 0 else Octets(packets[..|packets| - 1]) + |packets[|packets| - 1].unread|
  }

  /** The packets that are queued for messages, one after the other. */
  function TakenAll(inbound: seq<Inbound>, id: nat, packetSize: uint32, window: uint32, avail: nat): seq<Packet> {
    if inbound == [] then [] else
    var front := TakenAll(inbound[..|inbound| - 1], id, packetSize, window, avail);
    front + Taken(inbound[|inbound| - 1], id, packetSize, window, avail + Octets(front))
  }

  function Arrivals(packets: seq<Packet>): seq<Event> {
    if packets == [] then [] else Arrivals(packets[..|packets| - 1]) + [Arrive(packets[|packets| - 1])]
  }

  lemma {:induction false} NoPackets(id: nat)
    ensures Octets([]) == 0 && Arrivals([]) == [] && forall r :: Unread([], r) == []
  {
  }

  lemma {:induction false} OnePacket(p: Packet)
    ensures Octets([p]) == |p.unread| && Arrivals([p]) == [Arrive(p)]
    ensures forall r :: Unread([p], r) == if Selects(r, p) then p.unread else []
  {
    assert [p][..0] == [] && [p][1..] == [];
    assert forall r :: Unread([], r) == [];
    assert forall s: seq<byte> :: s + [] == s;
  }

  /** At most one more packet at the end. */
  lemma {:induction false} Appended(packets: seq<Packet>, p: seq<Packet>)
    requires |p| <= 1
    ensures Octets(packets + p) == Octets(packets) + Octets(p)
    ensures Arrivals(packets + p) == Arrivals(packets) + Arrivals(p)
    ensures forall r :: Unread(packets + p, r) == Unread(packets, r) + Unread(p, r)
  {
    hide Unread, Selects;
    NoPackets(0);
    if p == [] {
      assert packets + p == packets;
    } else {
      OnePacket(p[0]);
      assert p == [p[0]] && (packets + p)[..|packets|] == packets;
      forall r {
        UnreadSnoc(packets, p[0], r);
      }
    }
  }

  lemma {:induction false} NoneTaken(inbound: seq<Inbound>, id: nat, packetSize: uint32, window: uint32, avail: nat)
    ensures TakenAll(inbound[..0], id, packetSize, window, avail) == []
    ensures Octets([]) == 0 && Arrivals([]) == [] && forall r :: Unread([], r) == []
  {
  }

  lemma {:induction false} TakenStep(inbound: seq<Inbound>, i: nat, id: nat, packetSize: uint32, window: uint32,
                                     avail: nat)
    requires i < |inbound|
    ensures var front := TakenAll(inbound[..i], id, packetSize, window, avail);
            var p := Taken(inbound[i], id, packetSize, window, avail + Octets(front));
            |p| <= 1 && TakenAll(inbound[..i + 1], id, packetSize, window, avail) == front + p
  {
    hide Octets;
    assert inbound[..i + 1][..i] == inbound[..i] && inbound[..i + 1][i] == inbound[i];
  }

  lemma {:induction false} DataOf(m: Inbound)
    requires IsData(m) && m.InData?
    ensures m.kind == Data || m.kind == Extended
  {
  }

  predicate AllData(inbound: seq<Inbound>) {
    forall i :: 0 <= i < |inbound| ==> IsData(inbound[i])
  }

  predicate IsData(m: Inbound) {
    m.InData? ==> m.kind == Data || m.kind == Extended
  }

  lemma {:induction false} DataAt(inbound: seq<Inbound>, i: nat)
    requires AllData(inbound) && i < |inbound|
    ensures IsData(inbound[i])
  {
  }

  /** At end of file, no reader of the channel has anything left. */
  lemma {:induction false} NothingLeftAtEof(packets: seq<Packet>, r: Reader)
    requires forall i :: 0 <= i < |packets| ==> !IsFor(r.channel, packets[i])
    ensures Unread(packets, r) == [] && Total(packets, r.channel) == 0
  {
    if packets != [] {
      assert !IsFor(r.channel, packets[0]);
      NothingLeftAtEof(packets[1..], r);
    }
  }

  /** The buffer is short enough for the 32-bit subtraction to be exact. */
  predicate Fits(initial: uint32, len: nat) {
    len < 0x8000_0000 || initial + len < TWO_32
  }

  lemma {:induction false} FitsLess(initial: uint32, len: nat, more: nat)
    ensures Fits(initial, more) && len <= more ==> Fits(initial, len)
    ensures initial + more < TWO_32 ==> Fits(initial, more)
  {
  }

  /**
   From within the bounds the 32-bit subtraction is exact, and its result takes
   the window to its size plus the buffer, in 32 bits.
   */
  lemma {:induction false} ExactAdjustment(initial: uint32, window: uint32, len: nat)
    ensures initial >= 4096 && Fits(initial, len) && LowMark(initial) <= window < LowMark(initial) + len ==>
              var a := AdjustmentFor(initial, window, len);
              && a == initial + len - window && a % TWO_32 == a
              && (window + a) % TWO_32 == (initial + len) % TWO_32
    ensures LowMark(initial) <= initial
    ensures initial + len < TWO_32 ==> (initial + len) % TWO_32 == initial + len
  {
  }

  /** The size plus a buffer, in 32 bits, is within the bounds exactly when it does not wrap. */
  lemma {:induction false} BoundExactly(initial: uint32, len: nat)
    ensures len < 0x8000_0000 ==>
              var w := (initial + len) % TWO_32;
              LowMark(initial) <= w <= initial + len <==> initial + len < TWO_32
  {
    if initial + len >= TWO_32 && len < 0x8000_0000 {
      assert (initial + len) % TWO_32 == initial + len - TWO_32;
    }
  }

  /** `d` is what was taken and kept so far, then a drain of what lies ahead of `i`. */
  ghost predicate Ahead(d: Drained, taken: seq<byte>, packets: seq<Packet>, i: nat, r: Reader, n: nat) {
    && i <= |packets|
    && d.bytes == taken + Drain(packets[i..], r, n).bytes
    && d.rest == packets[..i] + Drain(packets[i..], r, n).rest
  }

  lemma {:induction false} AheadAtStart(packets: seq<Packet>, r: Reader, n: nat)
    ensures Ahead(Drain(packets, r, n), [], packets, 0, r, n)
  {
    assert packets[0..] == packets;
  }

  /** One packet: passed over, taken as a whole, or taken in part. */
  lemma {:induction false} AheadOf(d: Drained, taken: seq<byte>, packets: seq<Packet>, i: nat, r: Reader, n: nat)
    requires i < |packets| && n > 0 && Ahead(d, taken, packets, i, r, n)
    ensures var p := packets[i];
            && (!Selects(r, p) ==> Ahead(d, taken, packets, i + 1, r, n))
            && (Selects(r, p) && n >= |p.unread| ==>
                  Ahead(d, taken + p.unread, packets[..i] + packets[i + 1..], i, r, n - |p.unread|))
            && (Selects(r, p) && n < |p.unread| ==>
                  Ahead(d, taken + p.unread[..n], packets[i := p.(unread := p.unread[n..])], i + 1, r, 0))
  {
    hide Selects;
    var p, tail := packets[i], packets[i + 1..];
    assert packets[i..][1..] == tail && packets[..i + 1] == packets[..i] + [p];
    if Selects(r, p) {
      if n >= |p.unread| {
        var left := packets[..i] + tail;
        assert left[i..] == tail && left[..i] == packets[..i];
      } else {
        var left := packets[i := p.(unread := p.unread[n..])];
        assert left[i + 1..] == tail && left[..i + 1] == packets[..i] + [left[i]];
      }
    }
  }

  lemma {:induction false} NothingAhead(d: Drained, taken: seq<byte>, packets: seq<Packet>, i: nat, r: Reader, n: nat)
    requires Ahead(d, taken, packets, i, r, n) && (i == |packets| || n == 0)
    ensures d == Drained(taken, packets)
  {
  }
}
