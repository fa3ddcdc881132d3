/**
 The sending half of a channel: data under the peer's window, EOF and CLOSE.
 Every operation can be cut short by a blocked send and is then called again.
 The `local` part of the C channel structure and the write and close state
 variables live here.
 */
module ChannelSend {
  import opened Bytes
  import opened Transport

  const MAX_WRITE := 32700

  datatype CloseState = CloseIdle | CloseCreated | CloseSent

  /** What a write returns. */
  datatype WriteResult = Wrote(n: nat) | Zero | WouldBlock | ChannelClosed | EofWasSent | Error

  /** One `transport_read` while a close waits for the peer. */
  datatype CloseRead = CloseRead(peerClosed: bool, disconnected: bool, result: ReadResult)

  /** The laws of what this half has put on the wire; `failed` is a hard send failure. */
  ghost predicate WireLaws(log: seq<Message>, eof: bool, close: bool, closeState: CloseState, failed: bool) {
    && NoDataAfterEof(log)
    && eof == HasEof(log)
    && (!failed ==>
          && EofBeforeClose(log)
          && (close || closeState != CloseIdle ==> eof)
          && CloseCount(log) == if close || closeState == CloseSent then 1 else 0)
  }

  predicate AllFit(log: seq<Message>, packetSize: nat) {
    forall i :: 0 <= i < |log| && log[i].DataMsg? ==> |log[i].payload| <= MAX_WRITE && |log[i].payload| <= packetSize
  }

  function Sum(grants: seq<uint32>): nat {
    if grants == [] then 0 else Sum(grants[..|grants| - 1]) + grants[|grants| - 1]
  }

  /** What sending a packet of `n` octets is reported as. */
  function Report(n: nat, sent: SendResult): WriteResult {
    match sent case Sent => Wrote(n) case Again => WouldBlock case Failed => Error
  }

  /** What sending EOF or CLOSE is reported as. */
  function Code(sent: SendResult): Rc {
    match sent case Sent => Ok case Again => Eagain case Failed => Err
  }

  /** How a wait for the peer ends: it closed or is gone, something arrived, reading broke,
      or nothing is left to read. */
  function WaitRc(inputs: seq<CloseRead>, closed: bool, up: bool): Rc {
    if closed || !up then Ok
    else if inputs == [] then Eagain
    else match inputs[0].result
         case Nothing => WaitRc(inputs[1..], inputs[0].peerClosed, !inputs[0].disconnected)
         case Blocked => Eagain
         case Broken => Err
         case Progress => Ok
  }

  class SendHalf {
    const owner: nat
    const transport: Transport
    const remoteId: nat
    const initial: uint32
    const packetSize: uint32
    const hasCallback: bool
    var window: uint32
    var eof: bool
    var close: bool
    var remoteClose: bool
    var writeCreated: bool
    var writeBufwrite: nat
    var closeState: CloseState
    var callbacks: nat
    /** All window octets the peer granted after opening. */
    ghost var granted: nat
    /** A send of EOF or CLOSE failed hard. */
    ghost var failed: bool
    /** The octets that writes reported as written, in order. */
    ghost var reported: seq<byte>
    /** Arguments of a blocked write. */
    ghost var blockedStream: int
    ghost var blockedBuf: seq<byte>

    /** What this half has put on the wire. */
    ghost function Log(): seq<Message>
      reads transport
    {
      MessagesOf(transport.wire, owner)
    }

    /** What the peer still allows: the initial window and all grants, less what was sent. */
    ghost function Credit(): int
      reads this
    {
      initial + granted - |reported|
    }

    /**
     The send window is the credit, in 32 bits: they are equal exactly while the
     peer keeps the credit below 2^32, and nothing is ever sent beyond it.
     */
    ghost predicate WindowLaw()
      reads this
    {
      && Credit() >= 0
      && window == Credit() % TWO_32
      && (writeCreated ==> writeBufwrite <= Credit())
    }

    /** A blocked write is the transport's blocked message. */
    ghost predicate BlockedLaw()
      reads this, transport
    {
      writeCreated ==>
        && writeBufwrite <= |blockedBuf| && writeBufwrite <= MAX_WRITE && writeBufwrite <= packetSize
        && transport.pending == Some(Owned(owner, DataMsg(remoteId, blockedStream, blockedBuf[..writeBufwrite])))
        && !eof && (!failed ==> !close && closeState == CloseIdle)
    }

    ghost predicate Valid()
      reads this, transport
    {
      && WindowLaw()
      && BlockedLaw()
      && DataBytes(Log()) == reported
      && AllFit(Log(), packetSize)
      && WireLaws(Log(), eof, close, closeState, failed)
      && callbacks == if close && hasCallback then 1 else 0
    }

    constructor (owner: nat, transport: Transport, remoteId: nat, initial: uint32, packetSize: uint32,
                 hasCallback: bool)
      requires MessagesOf(transport.wire, owner) == []
      ensures Valid() && this.transport == transport && this.owner == owner && this.initial == initial
      ensures this.packetSize == packetSize && this.hasCallback == hasCallback
      ensures !failed && granted == 0 && reported == [] && !writeCreated && !close && !eof && window == initial
    {
      this.owner, this.transport, this.remoteId := owner, transport, remoteId;
      this.initial, this.packetSize, this.hasCallback := initial, packetSize, hasCallback;
      window, eof, close, remoteClose, writeCreated, writeBufwrite := initial, false, false, false, false, 0;
      closeState, callbacks := CloseIdle, 0;
      granted, failed, reported, blockedStream, blockedBuf := 0, false, [], 0, [];
    }

    /** Sends one message of this half. */
    method Put(msg: Message, outcome: SendResult) returns (rc: SendResult)
      modifies transport
      ensures rc == Sent ==> Log() == old(Log()) + [msg] && transport.pending == None
      ensures rc != Sent ==> Log() == old(Log())
      ensures rc == Again ==> transport.pending == Some(Owned(owner, msg))
      ensures rc == Failed ==> transport.pending == old(transport.pending)
      ensures rc == if Clear(old(transport.pending), msg) then outcome else Failed
    {
      MessagesSnoc(transport.wire, Owned(owner, msg), owner);
      rc := transport.Send(owner, msg, outcome);
    }

    /** The transport takes this message: none is blocked, or this one is. */
    predicate Clear(pending: Option<Owned>, msg: Message) {
      pending.None? || pending.value == Owned(owner, msg)
    }

    /** A close would send, while another message than its own is blocked. */
    predicate CloseHindered()
      reads this, transport
    {
      !close && if !eof then !Clear(transport.pending, EofMsg(remoteId))
                else closeState != CloseSent && !Clear(transport.pending, CloseMsg(remoteId))
    }

    /** The peer grants more window: a WINDOW_ADJUST arrived. */
    method Grant(n: uint32)
      requires Valid()
      modifies `window, `granted
      ensures Valid() && granted == old(granted) + n && window == (old(window) + n) % TWO_32
    {
      hide WireLaws, AllFit, DataBytes, MessagesOf;
      AddMod(Credit(), n);
      window := (window + n) % TWO_32;
      granted := granted + n;
    }

    /**
     What a fresh write on an open half answers: an error where draining broke; with
     no window after the grants, nothing or would block; else as many octets as
     buffer, window and packet size allow, if they can be sent.
     */
    ghost function FreshRc(stream: int, buf: seq<byte>, grants: seq<uint32>, drained: ReadResult,
                           outcome: SendResult): WriteResult
      reads `window, transport
    {
      var open: nat := (window + Sum(grants)) % TWO_32;
      var n: nat := Min(Min(Min(|buf|, 32700), open), packetSize);
      if drained == Broken then Error
      else if open == 0 then if drained == Blocked then WouldBlock else Zero
      else Report(n, if Clear(transport.pending, DataMsg(remoteId, stream, buf[..n])) then outcome else Failed)
    }

    /**
     Sends the first part of a buffer.  A call that would block must be repeated
     with the same arguments.  Grants that arrive while the input is drained are
     taken first.
     */
    method Write(stream: int, buf: seq<byte>, grants: seq<uint32>, drained: ReadResult, outcome: SendResult)
      returns (rc: WriteResult)
      requires Valid()
      requires writeCreated ==> stream == blockedStream && buf == blockedBuf
      modifies this, transport
      ensures Valid()
      ensures unchanged(`eof, `close, `closeState, `callbacks, `failed, `remoteClose)
      ensures old(writeCreated) ==> granted == old(granted)
      ensures rc.Wrote? ==> && rc.n <= |buf| && rc.n <= MAX_WRITE && rc.n <= packetSize
                            && rc.n <= old(Credit()) + (granted - old(granted))
                            && Log() == old(Log()) + [DataMsg(remoteId, stream, buf[..rc.n])]
                            && reported == old(reported) + buf[..rc.n]
      ensures !rc.Wrote? ==> Log() == old(Log()) && reported == old(reported)
      ensures writeCreated ==> rc == WouldBlock && blockedStream == stream && blockedBuf == buf
      // the answer of a fresh call, in the order of the checks
      ensures !old(writeCreated) && old(close) ==> rc == ChannelClosed && granted == old(granted)
      ensures !old(writeCreated) && !old(close) && old(eof) ==> rc == EofWasSent && granted == old(granted)
      ensures !old(writeCreated) && !old(close) && !old(eof) ==>
                granted == old(granted) + Sum(grants) && rc == old(FreshRc(stream, buf, grants, drained, outcome))
      // a resumed call goes on with the packet that was blocked
      ensures old(writeCreated) ==> rc == Report(old(writeBufwrite), outcome)
      ensures outcome == Sent && old(transport.pending).None? ==> transport.pending.None?
    {
      hide WireLaws, AllFit, DataBytes, MessagesOf;
      if !writeCreated {
        var stop := Prepare(stream, buf, grants, drained);
        if stop.Some? {
          return stop.value;
        }
      }
      rc := SendData(stream, buf, outcome);
    }

    /** The idle state of a write: checks, drains the input and measures the packet. */
    method Prepare(stream: int, buf: seq<byte>, grants: seq<uint32>, drained: ReadResult)
        returns (stop: Option<WriteResult>)
      requires Valid() && !writeCreated
      modifies `window, `granted, `writeBufwrite, `blockedStream, `blockedBuf
      ensures Valid() && granted == old(granted) + (if close || eof then 0 else Sum(grants))
      ensures !close && !eof ==> window == (old(window) + Sum(grants)) % TWO_32
      ensures stop == if close then Some(ChannelClosed) else if eof then Some(EofWasSent)
                      else if drained == Broken then Some(Error)
                      else if window == 0 then Some(if drained == Blocked then WouldBlock else Zero) else None
      ensures stop.None? ==>
                stream == blockedStream && buf == blockedBuf && (!failed ==> !close && closeState == CloseIdle)
      ensures stop.None? ==>
                writeBufwrite == Min(Min(Min(|buf|, MAX_WRITE), window), packetSize) && writeBufwrite <= Credit()
    {
      hide WireLaws, AllFit, DataBytes, MessagesOf;
      if close {
        return Some(ChannelClosed);
      }
      if eof {
        return Some(EofWasSent);
      }
      Drain(grants);
      if drained == Broken {
        return Some(Error);
      }
      if window <= 0 {
        return Some(if drained == Blocked then WouldBlock else Zero);
      }
      writeBufwrite := if |buf| > MAX_WRITE then MAX_WRITE else |buf|;
      if writeBufwrite > window {
        writeBufwrite := window;
      }
      if writeBufwrite > packetSize {
        writeBufwrite := packetSize;
      }
      blockedStream, blockedBuf := stream, buf;
      CreditCovers(Credit());
      if !failed {
        NotClosing(Log(), close, closeState, failed);
      }
      return None;
    }

    /** Takes the grants that arrive while the input is drained. */
    method Drain(grants: seq<uint32>)
      requires Valid() && !writeCreated
      modifies `window, `granted
      ensures Valid() && granted == old(granted) + Sum(grants) && window == (old(window) + Sum(grants)) % TWO_32
    {
      hide SendHalf.Valid;
      for i := 0 to |grants|
        invariant Valid() && granted == old(granted) + Sum(grants[..i])
        invariant window == (old(window) + Sum(grants[..i])) % TWO_32
      {
        assert grants[..i + 1][..i] == grants[..i];
        AddMod(old(window) + Sum(grants[..i]), grants[i]);
        Grant(grants[i]);
      }
      assert grants[..|grants|] == grants;
    }

    /** The created state of a write: the packet goes out, blocks or fails. */
    method SendData(stream: int, buf: seq<byte>, outcome: SendResult) returns (rc: WriteResult)
      requires WindowLaw() && DataBytes(Log()) == reported && AllFit(Log(), packetSize)
      requires WireLaws(Log(), eof, close, closeState, failed) && callbacks == if close && hasCallback then 1 else 0
      requires stream == blockedStream && buf == blockedBuf && !eof && (!failed ==> !close && closeState == CloseIdle)
      requires writeBufwrite <= |buf| && writeBufwrite <= MAX_WRITE
      requires writeBufwrite <= packetSize && writeBufwrite <= Credit()
      modifies `window, `writeCreated, `reported, transport
      ensures Valid()
      ensures rc == match (if Clear(old(transport.pending), DataMsg(remoteId, stream, buf[..writeBufwrite]))
                           then outcome else Failed)
                    case Sent => Wrote(writeBufwrite)
                    case Again => WouldBlock
                    case Failed => Error
      ensures writeCreated <==> rc == WouldBlock
      ensures rc.Wrote? ==>
                Log() == old(Log()) + [DataMsg(remoteId, stream, buf[..rc.n])]
                    && reported == old(reported) + buf[..rc.n]
      ensures !rc.Wrote? ==> Log() == old(Log()) && reported == old(reported)
      ensures outcome == Sent && old(transport.pending).None? ==> transport.pending.None?
    {
      hide DataBytes, MessagesOf, CloseCount, HasEof, NoDataAfterEof, EofBeforeClose;
      var msg := DataMsg(remoteId, stream, buf[..writeBufwrite]);
      ghost var log := Log();
      DataBytesSnoc(log, msg);
      CloseCountSnoc(log, msg);
      OrderSnoc(log, msg);
      var sent := Put(msg, outcome);
      match sent {
        case Again =>
          writeCreated := true;
          return WouldBlock;
        case Failed =>
          writeCreated := false;
          return Error;
        case Sent =>
      }
      SubMod(Credit(), writeBufwrite);
      window := (window - writeBufwrite) % TWO_32;
      reported := reported + buf[..writeBufwrite];
      writeCreated := false;
      rc := Wrote(writeBufwrite);
    }

    /** Sends EOF. */
    method SendEof(outcome: SendResult) returns (rc: Rc)
      requires Valid()
      modifies `eof, `failed, transport
      ensures Valid()
      ensures rc == Ok ==>
                eof && Log() == old(Log()) + [EofMsg(remoteId)] && failed == old(failed) && transport.pending == None
      ensures rc != Ok ==> eof == old(eof) && Log() == old(Log())
      ensures rc == Eagain ==> failed == old(failed) && transport.pending == Some(Owned(owner, EofMsg(remoteId)))
      ensures rc == Err ==> failed && transport.pending == old(transport.pending)
      ensures rc == Code(if Clear(old(transport.pending), EofMsg(remoteId)) then outcome else Failed)
    {
      hide DataBytes, MessagesOf, CloseCount, HasEof, NoDataAfterEof, EofBeforeClose;
      var msg := EofMsg(remoteId);
      ghost var log := Log();
      DataBytesSnoc(log, msg);
      CloseCountSnoc(log, msg);
      OrderSnoc(log, msg);
      var sent := Put(msg, outcome);
      match sent {
        case Again => return Eagain;
        case Failed =>
          failed := true;
          return Err;
        case Sent =>
      }
      eof := true;
      rc := Ok;
    }

    /** What sending EOF and then CLOSE answers, each where it is still to be sent. */
    ghost function Sending(eofOutcome: SendResult, closeOutcome: SendResult): (Rc, Rc)
      reads this, transport
    {
      var e := if eof then Ok else Code(if Clear(transport.pending, EofMsg(remoteId)) then eofOutcome else Failed);
      var pending := if !eof && e == Ok then None else transport.pending;
      (e, if closeState == CloseSent then Ok
          else Code(if Clear(pending, CloseMsg(remoteId)) then closeOutcome else Failed))
    }

    /** What goes out in a close. */
    ghost function Ending(eofOutcome: SendResult, closeOutcome: SendResult): seq<Message>
      reads this, transport
    {
      var (e, c) := Sending(eofOutcome, closeOutcome);
      (if !eof && e == Ok then [EofMsg(remoteId)] else [])
      + (if closeState != CloseSent && e != Eagain && c == Ok then [CloseMsg(remoteId)] else [])
    }

    /** How sending ends: with CLOSE, or with EOF where it blocks or CLOSE was sent before. */
    ghost function SentRc(eofOutcome: SendResult, closeOutcome: SendResult): Rc
      reads this, transport
    {
      var (e, c) := Sending(eofOutcome, closeOutcome);
      if e == Eagain || closeState == CloseSent then e else c
    }

    /**
     Closes the channel: EOF if none was sent, CLOSE once, then a wait for the
     peer's CLOSE.  The callback fires when nothing can block any more.
     */
    method Close(eofOutcome: SendResult, closeOutcome: SendResult, inputs: seq<CloseRead>, connected: bool)
        returns (rc: Rc)
      requires Valid()
      modifies this, transport
      ensures Valid()
      ensures unchanged(`window, `granted, `reported, `writeCreated, `writeBufwrite, `blockedStream, `blockedBuf)
      ensures rc == Eagain <==> !close
      ensures old(close) ==> rc == Ok && unchanged(transport) && callbacks == old(callbacks)
      ensures !old(failed) && !failed && close ==> CloseCount(Log()) == 1
      ensures !old(close) ==> Log() == old(Log()) + old(Ending(eofOutcome, closeOutcome))
      ensures !old(close) ==> rc == old(if SentRc(eofOutcome, closeOutcome) == Ok
                                        then WaitRc(inputs, remoteClose, connected)
                                        else SentRc(eofOutcome, closeOutcome))
      ensures !old(close) && rc == Ok ==> PeerAnswered(inputs, connected)
      ensures !old(failed) && !old(CloseHindered()) && eofOutcome != Failed && closeOutcome != Failed ==> !failed
      ensures eofOutcome == Sent && closeOutcome == Sent && old(transport.pending).None? ==> transport.pending.None?
    {
      hide WireLaws, SendHalf.Valid, DataBytes, MessagesOf, CloseCount, SendHalf.Log, SendHalf.PeerAnswered, WaitRc,
           SendHalf.Ending, SendHalf.SentRc, SendHalf.CloseHindered;
      if close {
        Settle();
        return Ok;
      }
      rc := SendEnd(eofOutcome, closeOutcome);
      if rc == Eagain {
        return;
      }
      if closeState == CloseSent && rc == Ok {
        rc := AwaitClose(inputs, connected);
      }
      if rc != Eagain {
        Settle();
      }
    }

    /** The messages of a close, as far as they are left: a failed EOF does not keep CLOSE back. */
    method SendEnd(eofOutcome: SendResult, closeOutcome: SendResult) returns (rc: Rc)
      requires Valid() && !close
      modifies `eof, `closeState, `failed, transport
      ensures Valid() && (rc == Ok ==> closeState == CloseSent) && (rc == Err ==> failed)
      ensures closeState == CloseSent <==> old(closeState) == CloseSent || rc == Ok
      ensures Log() == old(Log()) + old(Ending(eofOutcome, closeOutcome)) && rc == old(SentRc(eofOutcome, closeOutcome))
      ensures !old(failed) && !old(CloseHindered()) && eofOutcome != Failed && closeOutcome != Failed ==> !failed
      ensures eofOutcome == Sent && closeOutcome == Sent && old(transport.pending).None? ==> transport.pending.None?
    {
      hide WireLaws, DataBytes, MessagesOf, CloseCount, SendHalf.Log, AllFit, SendHalf.WindowLaw, SendHalf.BlockedLaw;
      rc := Ok;
      if !eof {
        rc := SendEof(eofOutcome);
        if rc == Eagain {
          return;
        }
      }
      if closeState != CloseSent {
        rc := SendClose(closeOutcome);
      }
    }

    /** Closes a channel that is still open on a live connection before it goes away. */
    method Free(eofOutcome: SendResult, closeOutcome: SendResult, inputs: seq<CloseRead>, connected: bool)
        returns (rc: Rc)
      requires Valid()
      modifies this, transport
      ensures Valid()
      ensures unchanged(`window, `granted, `reported, `writeCreated, `writeBufwrite, `blockedStream, `blockedBuf)
      ensures rc == Ok <==> close || !connected
      ensures Log() == old(Log()) + (if old(close) || !connected then [] else old(Ending(eofOutcome, closeOutcome)))
      ensures !old(close) && connected ==>
                (rc == Eagain <==> || old(SentRc(eofOutcome, closeOutcome)) == Eagain
                                   || (old(SentRc(eofOutcome, closeOutcome)) == Ok
                                       && WaitRc(inputs, old(remoteClose), connected) == Eagain))
      ensures rc != Ok ==> rc == Eagain
      ensures !old(failed) && !old(CloseHindered()) && eofOutcome != Failed && closeOutcome != Failed ==> !failed
      ensures eofOutcome == Sent && closeOutcome == Sent && old(transport.pending).None? ==> transport.pending.None?
    {
      hide SendHalf.Valid, SendHalf.PeerAnswered, SendHalf.Log, CloseCount, SendHalf.CloseHindered, SendHalf.Ending,
           SendHalf.SentRc, WaitRc;
      assert Log() + [] == Log();
      if !close && connected {
        rc := Close(eofOutcome, closeOutcome, inputs, connected);
        if rc == Eagain {
          return;
        }
      }
      rc := Ok;
    }

    /** The end of a close: the flag, and the callback the first time. */
    method Settle()
      requires Valid() && (close || closeState == CloseSent || failed)
      modifies `close, `closeState, `callbacks
      ensures Valid() && close && closeState == CloseIdle
      ensures callbacks == old(callbacks) + if !old(close) && hasCallback then 1 else 0
      ensures !failed ==> CloseCount(Log()) == 1
    {
      hide DataBytes, MessagesOf, WireLaws, AllFit, CloseCount;
      FinishClose(Log(), eof, close, closeState, failed);
      if !close {
        close := true;
        if hasCallback {
          callbacks := callbacks + 1;
        }
      }
      closeState := CloseIdle;
    }

    /** Sends the CLOSE message unless it was sent before. */
    method SendClose(outcome: SendResult) returns (rc: Rc)
      requires Valid() && !close && (!failed ==> eof)
      modifies `closeState, `failed, transport
      ensures Valid() && (old(failed) ==> failed)
      ensures rc == Ok ==> closeState == CloseSent
      ensures closeState == (if rc == Ok then CloseSent else CloseCreated) && (rc == Err ==> failed)
      ensures rc == Eagain ==> !old(failed) ==> !failed
      ensures rc == if old(closeState) == CloseSent then Ok
                    else Code(if Clear(old(transport.pending), CloseMsg(remoteId)) then outcome else Failed)
      ensures Log() == old(Log()) + if old(closeState) != CloseSent && rc == Ok then [CloseMsg(remoteId)] else []
      ensures !old(failed) && outcome != Failed && Clear(old(transport.pending), CloseMsg(remoteId)) ==> !failed
      ensures outcome == Sent && old(transport.pending).None? ==> transport.pending.None?
    {
      hide DataBytes, MessagesOf, CloseCount, HasEof, NoDataAfterEof, EofBeforeClose, AllFit;
      AllFitSnoc(Log(), CloseMsg(remoteId), packetSize);
      if closeState == CloseIdle {
        closeState := CloseCreated;
      }
      rc := Ok;
      if closeState == CloseCreated {
        var msg := CloseMsg(remoteId);
        ghost var log := Log();
        DataBytesSnoc(log, msg);
        CloseCountSnoc(log, msg);
        OrderSnoc(log, msg);
        var sent := Put(msg, outcome);
        match sent {
          case Again => return Eagain;
          case Failed =>
            failed := true;
            return Err;
          case Sent =>
            closeState := CloseSent;
        }
      }
    }

    /** The wait for the peer is over: it closed, it is gone, or some packet was read. */
    ghost predicate PeerAnswered(inputs: seq<CloseRead>, connected: bool)
      reads `remoteClose
    {
      || remoteClose || !connected
      || exists k :: 0 <= k < |inputs| && (inputs[k].disconnected || inputs[k].result == Progress)
    }

    /** Reads until the peer has closed, something else arrives, or nothing more can be read. */
    method AwaitClose(inputs: seq<CloseRead>, connected: bool) returns (rc: Rc)
      requires Valid()
      modifies `remoteClose
      ensures Valid()
      ensures old(remoteClose) || !connected ==> rc == Ok
      ensures rc == WaitRc(inputs, old(remoteClose), connected)
      ensures rc == Ok ==> PeerAnswered(inputs, connected)
      ensures rc == Err ==> exists k :: 0 <= k < |inputs| && inputs[k].result == Broken
      ensures remoteClose ==> old(remoteClose) || exists k :: 0 <= k < |inputs| && inputs[k].peerClosed
    {
      var k, up, result := 0, connected, Nothing;
      while !remoteClose && result == Nothing && up
        invariant old(remoteClose) || !connected ==> result == Nothing
        invariant old(remoteClose) ==> remoteClose
        invariant !connected ==> !up
        invariant 0 <= k <= |inputs|
        invariant WaitRc(inputs, old(remoteClose), connected)
                  == match result case Nothing => WaitRc(inputs[k..], remoteClose, up) case Blocked => Eagain
                                  case Broken => Err case Progress => Ok
        invariant !up ==> !connected || exists i :: 0 <= i < |inputs| && inputs[i].disconnected
        invariant result in {Progress, Broken} ==> exists i :: 0 <= i < |inputs| && inputs[i].result == result
        invariant remoteClose ==> old(remoteClose) || exists i :: 0 <= i < |inputs| && inputs[i].peerClosed
        decreases |inputs| - k
      {
        if k >= |inputs| {
          result := Blocked;
          break;
        }
        remoteClose := remoteClose || inputs[k].peerClosed;
        up := up && !inputs[k].disconnected;
        result := inputs[k].result;
        k := k + 1;
      }
      rc := match result case Blocked => Eagain case Broken => Err case _ => Ok;
    }

    /** The peer's CLOSE arrived. */
    method PeerClosed()
      requires Valid()
      modifies `remoteClose
      ensures Valid() && remoteClose
    {
      remoteClose := true;
    }
  }

  /** One step of a run: an operation of this half, or something from outside. */
  datatype Step =
    | WriteStep(stream: int, buf: seq<byte>, grants: seq<uint32>, drained: ReadResult, outcome: SendResult)
    | GrantStep(n: uint32)
    | EofStep(outcome: SendResult)
    | CloseStep(eofOutcome: SendResult, closeOutcome: SendResult, inputs: seq<CloseRead>, connected: bool)
    | FreeStep(eofOutcome: SendResult, closeOutcome: SendResult, inputs: seq<CloseRead>, connected: bool)
    | PeerClosedStep
    | ForeignStep(owner: nat, msg: Message, outcome: SendResult)

  /** The transport does not fail the EOF or CLOSE of a step. */
  predicate Sends(step: Step) {
    match step
    case EofStep(outcome) => outcome != Failed
    case CloseStep(e, c, _, _) => e != Failed && c != Failed
    case FreeStep(e, c, _, _) => e != Failed && c != Failed
    case _ => true
  }

  /** All that a step sends goes out at once. */
  predicate Completes(step: Step) {
    match step
    case WriteStep(_, _, _, _, outcome) => outcome == Sent
    case EofStep(outcome) => outcome == Sent
    case CloseStep(e, c, _, _) => e == Sent && c == Sent
    case FreeStep(e, c, _, _) => e == Sent && c == Sent
    case ForeignStep(_, _, outcome) => outcome == Sent
    case _ => true
  }

  /** A step that ends the half's stream. */
  predicate Ends(step: Step) {
    step.EofStep? || step.CloseStep? || step.FreeStep?
  }

  /** What the peer has granted and what was written, at one moment. */
  datatype Point = Point(granted: nat, written: nat)

  ghost function PointOf(h: SendHalf): Point
    reads h
  {
    Point(h.granted, |h.reported|)
  }

  /** One step grants what it says and writes what it reports. */
  predicate StepLaw(step: Step, a: Point, b: Point, answer: Option<WriteResult>) {
    match step
    case GrantStep(n) => b == Point(a.granted + n, a.written)
    case WriteStep(_, _, grants, _, _) =>
      && answer.Some? && (b.granted == a.granted || b.granted == a.granted + Sum(grants))
      && b.written == a.written + if answer.value.Wrote? then answer.value.n else 0
    case _ => b == a
  }

  /** A write on an open half takes all grants, and then sends as much as buffer, window and packet size allow. */
  ghost predicate WriteLaw(h: SendHalf, step: Step, a: Point, b: Point, answer: Option<WriteResult>) {
    step.WriteStep? ==>
      && b.granted == a.granted + Sum(step.grants)
      && var open := (h.initial + b.granted - a.written) % TWO_32;
         answer == Some(if step.drained == Broken then Error
                        else if open == 0 then if step.drained == Blocked then WouldBlock else Zero
                        else Wrote(Min(Min(Min(|step.buf|, 32700), open), h.packetSize)))
  }

  /** Up to step `k`, all that anyone sends goes out at once, and no step before it ends the stream. */
  predicate OpenAndCalm(script: seq<Step>, k: nat)
    requires k < |script|
  {
    (forall j :: 0 <= j <= k ==> Completes(script[j])) && (forall j :: 0 <= j < k ==> !Ends(script[j]))
  }

  /** A step would send EOF or CLOSE while another message is blocked. */
  predicate Hindered(h: SendHalf, step: Step)
    reads h, h.transport
  {
    match step
    case EofStep(_) => !h.Clear(h.transport.pending, EofMsg(h.remoteId))
    case CloseStep(_, _, _, _) => h.CloseHindered()
    case FreeStep(_, _, _, _) => h.CloseHindered()
    case _ => false
  }

  lemma {:induction false} HinderedIs(h: SendHalf, step: Step)
    ensures step.EofStep? && !Hindered(h, step) ==> h.Clear(h.transport.pending, EofMsg(h.remoteId))
    ensures (step.CloseStep? || step.FreeStep?) && !Hindered(h, step) ==> !h.CloseHindered()
    ensures h.transport.pending.None? ==> !Hindered(h, step)
    ensures Hindered(h, step) ==> Ends(step)
  {
  }

  /** A message of another sender changes nothing here. */
  method Foreign(h: SendHalf, owner: nat, msg: Message, outcome: SendResult)
    requires h.Valid() && owner != h.owner
    modifies h.transport
    ensures h.Valid()
    ensures outcome == Sent && old(h.transport.pending).None? ==> h.transport.pending.None?
  {
    hide DataBytes, MessagesOf, WireLaws, AllFit;
    MessagesSnoc(h.transport.wire, Owned(owner, msg), h.owner);
    var rc := h.transport.Send(owner, msg, outcome);
    assert h.Log() == old(h.Log()) + [] == old(h.Log());
  }

  /** One step; a blocked write is repeated with its own arguments. */
  method Perform(h: SendHalf, step: Step, stream: int, buf: seq<byte>)
    returns (nextStream: int, nextBuf: seq<byte>, ghost answer: Option<WriteResult>)
    requires h.Valid() && (h.writeCreated ==> h.blockedStream == stream && h.blockedBuf == buf)
    modifies h, h.transport
    ensures h.Valid() && (h.writeCreated ==> h.blockedStream == nextStream && h.blockedBuf == nextBuf)
    ensures !old(h.failed) && Sends(step) && !old(Hindered(h, step)) ==> !h.failed
    ensures !old(h.failed) && Completes(step) && old(h.transport.pending).None? ==>
              !h.failed && h.transport.pending.None?
    ensures StepLaw(step, old(PointOf(h)), PointOf(h), answer)
    ensures !Ends(step) && !old(h.close) && !old(h.eof) ==> !h.close && !h.eof
    ensures Completes(step) && old(h.transport.pending).None? && !old(h.close) && !old(h.eof) ==>
              WriteLaw(h, step, old(PointOf(h)), PointOf(h), answer)
  {
    hide SendHalf.Valid, DataBytes, AllFit, CloseCount, SendHalf.Log, SendHalf.PeerAnswered, Hindered,
         SendHalf.CloseHindered, SendHalf.Ending, SendHalf.SentRc, WaitRc, Sum;
    HinderedIs(h, step);
    nextStream, nextBuf, answer := stream, buf, None;
    match step {
      case WriteStep(s, b, grants, drained, outcome) =>
        if !h.writeCreated {
          nextStream, nextBuf := s, b;
        }
        answer := PerformWrite(h, step, nextStream, nextBuf);
      case GrantStep(n) => h.Grant(n);
      case EofStep(outcome) =>
        var rc := h.SendEof(outcome);
      case CloseStep(e, c, inputs, up) =>
        var rc := h.Close(e, c, inputs, up);
      case FreeStep(e, c, inputs, up) =>
        var rc := h.Free(e, c, inputs, up);
      case PeerClosedStep => h.PeerClosed();
      case ForeignStep(owner, msg, outcome) =>
        if owner != h.owner {
          Foreign(h, owner, msg, outcome);
        }
    }
  }

  method PerformWrite(h: SendHalf, step: Step, stream: int, buf: seq<byte>) returns (ghost answer: Option<WriteResult>)
    requires h.Valid() && step.WriteStep? && (h.writeCreated ==> h.blockedStream == stream && h.blockedBuf == buf)
    requires !h.writeCreated ==> stream == step.stream && buf == step.buf
    modifies h, h.transport
    ensures h.Valid() && (h.writeCreated ==> h.blockedStream == stream && h.blockedBuf == buf)
    ensures unchanged(h`failed, h`close, h`eof)
    ensures step.outcome == Sent && old(h.transport.pending).None? ==> h.transport.pending.None?
    ensures StepLaw(step, old(PointOf(h)), PointOf(h), answer)
    ensures step.outcome == Sent && old(h.transport.pending).None? && !h.close && !h.eof ==>
              WriteLaw(h, step, old(PointOf(h)), PointOf(h), answer)
  {
    hide SendHalf.Valid, DataBytes, AllFit, CloseCount, SendHalf.Log, Sum;
    WindowOf(h);
    AddMod(h.Credit(), Sum(step.grants));
    var rc := h.Write(stream, buf, step.grants, step.drained, step.outcome);
    answer := Some(rc);
  }

  /** What validity says about the window and a blocked write. */
  lemma {:induction false} WindowOf(h: SendHalf)
    requires h.Valid()
    ensures h.window == (h.initial + h.granted - |h.reported|) % TWO_32
    ensures h.transport.pending.None? ==> !h.writeCreated
  {
    hide WireLaws, AllFit, DataBytes, MessagesOf;
  }

  /**
   Every run of writes, retries, grants, EOF, close and free on a half, mixed
   with messages of other senders in any way.  A blocked write is repeated with
   its own arguments.  A patient caller also lets a blocked message go out before
   it sends EOF or CLOSE; then only the transport itself can fail them.
   */
  method Run(h: SendHalf, script: seq<Step>, patient: bool)
    returns (ghost trace: seq<Point>, ghost answers: seq<Option<WriteResult>>)
    requires h.Valid() && !h.writeCreated && !h.failed
    modifies h, h.transport
    ensures h.Valid()
    // the window law
    ensures |h.reported| <= h.initial + h.granted
    ensures h.window == (h.initial + h.granted - |h.reported|) % TWO_32
    ensures h.initial + h.granted - |h.reported| < TWO_32 <==> h.window == h.initial + h.granted - |h.reported|
    // what is on the wire is what was reported as written, in packets that fit
    ensures DataBytes(h.Log()) == h.reported && AllFit(h.Log(), h.packetSize)
    // order of EOF, CLOSE and data
    ensures NoDataAfterEof(h.Log())
    ensures !h.failed ==> EofBeforeClose(h.Log()) && NoDataAfterClose(h.Log()) && CloseCount(h.Log()) <= 1
    ensures h.callbacks <= 1
    ensures patient && (forall i :: 0 <= i < |script| ==> Sends(script[i])) ==> !h.failed
    ensures old(h.transport.pending).None? && (forall i :: 0 <= i < |script| ==> Completes(script[i])) ==> !h.failed
    // every step grants what it says, and every write writes what it reports
    ensures |trace| == |script| + 1 && trace[0] == old(PointOf(h)) && trace[|script|] == PointOf(h)
    ensures |answers| == |script| && forall k :: 0 <= k < |script| ==>
              StepLaw(script[k], trace[k], trace[k + 1], answers[k])
    ensures old(h.transport.pending).None? && !old(h.close) && !old(h.eof) ==>
              forall k :: 0 <= k < |script| && OpenAndCalm(script, k) ==>
                WriteLaw(h, script[k], trace[k], trace[k + 1], answers[k])
  {
    hide SendHalf.Valid, DataBytes, AllFit, NoDataAfterEof, EofBeforeClose, NoDataAfterClose, CloseCount, SendHalf.Log,
         SendHalf.Credit, SendHalf.PeerAnswered, Hindered, SendHalf.CloseHindered;
    var stream, buf := 0, [];
    trace, answers := [PointOf(h)], [];
    for i := 0 to |script|
      invariant h.Valid()
      invariant patient && (forall j :: 0 <= j < i ==> Sends(script[j])) ==> !h.failed
      invariant old(h.transport.pending).None? && (forall j :: 0 <= j < i ==> Completes(script[j])) ==>
                  !h.failed && h.transport.pending.None?
      invariant h.writeCreated ==> h.blockedStream == stream && h.blockedBuf == buf
      invariant |trace| == i + 1 && trace[0] == old(PointOf(h)) && trace[i] == PointOf(h)
      invariant |answers| == i && forall k :: 0 <= k < i ==> StepLaw(script[k], trace[k], trace[k + 1], answers[k])
      invariant !old(h.close) && !old(h.eof) && (forall j :: 0 <= j < i ==> !Ends(script[j])) ==> !h.close && !h.eof
      invariant old(h.transport.pending).None? && !old(h.close) && !old(h.eof) ==>
                  forall k :: 0 <= k < i && OpenAndCalm(script, k) ==>
                    WriteLaw(h, script[k], trace[k], trace[k + 1], answers[k])
    {
      ghost var answer := None;
      HinderedIs(h, script[i]);
      if !(patient && Hindered(h, script[i])) {
        stream, buf, answer := Perform(h, script[i], stream, buf);
      }
      trace, answers := trace + [PointOf(h)], answers + [answer];
    }
    Consequences(h);
  }

  /** A peer that lets the credit reach 2^32 takes the window back to zero. */
  method OverflowingGrant(transport: Transport) returns (h: SendHalf)
    requires MessagesOf(transport.wire, 0) == []
    ensures h.Valid() && h.reported == [] && h.initial + h.granted == TWO_32 && h.window == 0
  {
    hide SendHalf.Valid;
    h := new SendHalf(0, transport, 0, TWO_32 - 1, 32768, false);
    h.Grant(1);
  }

  /** What validity says, spelled out. */
  lemma {:induction false} Consequences(h: SendHalf)
    requires h.Valid()
    ensures |h.reported| <= h.initial + h.granted
    ensures h.window == (h.initial + h.granted - |h.reported|) % TWO_32
    ensures h.initial + h.granted - |h.reported| < TWO_32 <==> h.window == h.initial + h.granted - |h.reported|
    ensures DataBytes(h.Log()) == h.reported && AllFit(h.Log(), h.packetSize)
    ensures NoDataAfterEof(h.Log())
    ensures !h.failed ==> EofBeforeClose(h.Log()) && NoDataAfterClose(h.Log()) && CloseCount(h.Log()) <= 1
    ensures h.callbacks <= 1
  {
    if !h.failed {
      NothingAfterClose(h.Log());
    }
  }

  lemma {:induction false} AllFitSnoc(log: seq<Message>, m: Message, packetSize: nat)
    requires AllFit(log, packetSize) && (m.DataMsg? ==> |m.payload| <= MAX_WRITE && |m.payload| <= packetSize)
    ensures AllFit(log + [m], packetSize)
  {
  }

  lemma {:induction false} NotClosing(log: seq<Message>, close: bool, closeState: CloseState, failed: bool)
    requires WireLaws(log, false, close, closeState, failed) && !failed
    ensures !close && closeState == CloseIdle
  {
  }

  lemma {:induction false} FinishClose(log: seq<Message>, eof: bool, close: bool, closeState: CloseState, failed: bool)
    requires WireLaws(log, eof, close, closeState, failed) && (close || closeState == CloseSent || failed)
    ensures WireLaws(log, eof, true, CloseIdle, failed)
    ensures !failed ==> CloseCount(log) == 1
  {
  }

  lemma {:induction false} CreditCovers(a: nat)
    ensures a % TWO_32 <= a
  {
  }
}
