/**
 The outgoing transport as the channel engine sees it: a message is sent
 completely, or blocks before anything counts as sent, or fails.  While a
 message is blocked, only its own sender may go on with it.
 */
module Transport {
  import opened Bytes

  /** Channel messages of section 5 of RFC 4254 that this side sends. */
  datatype Message =
    | DataMsg(recipient: nat, stream: int, payload: seq<byte>)
    | EofMsg(recipient: nat)
    | CloseMsg(recipient: nat)
    | AdjustMsg(recipient: nat, amount: nat)

  datatype SendResult = Sent | Again | Failed

  /** What a resumable operation returns: done, call again, or an error. */
  datatype Rc = Ok | Eagain | Err

  /** What `transport_read` ends with: nothing more, would block, some packet, or an error. */
  datatype ReadResult = Nothing | Blocked | Progress | Broken

  /** A message and the part of the session that sends it. */
  datatype Owned = Owned(owner: nat, msg: Message)

  /** What has gone out, and the message that is blocked. */
  datatype Outgoing = Outgoing(wire: seq<Owned>, pending: Option<Owned>)

  class Transport {
    var wire: seq<Owned>
    var pending: Option<Owned>

    function Now(): Outgoing
      reads this
    {
      Outgoing(wire, pending)
    }

    constructor ()
      ensures wire == [] && pending == None
    {
      wire, pending := [], None;
    }

    /**
     Sends a message; `outcome` is what the socket does.  Another message than
     the blocked one is refused.
     */
    method Send(owner: nat, msg: Message, outcome: SendResult) returns (rc: SendResult)
      modifies this
      ensures var refused := old(pending).Some? && old(pending).value != Owned(owner, msg);
              && rc == (if refused then Failed else outcome)
              && wire == (if rc == Sent then old(wire) + [Owned(owner, msg)] else old(wire))
              && pending == (if rc == Sent then None else if rc == Again then Some(Owned(owner, msg)) else old(pending))
      ensures ServedOnly(old(Now()), Now(), owner)
    {
      hide MessagesOf;
      forall o {
        MessagesSnoc(wire, Owned(owner, msg), o);
      }
      if pending.Some? && pending.value != Owned(owner, msg) {
        return Failed;
      }
      match outcome {
        case Sent =>
          wire := wire + [Owned(owner, msg)];
          pending := None;
        case Again =>
          pending := Some(Owned(owner, msg));
        case Failed =>
      }
      return outcome;
    }
  }

  /** Only `owner` was served: other senders' messages and a message they have blocked are as before. */
  ghost predicate ServedOnly(before: Outgoing, after: Outgoing, owner: nat) {
    && (forall o :: o != owner ==> MessagesOf(after.wire, o) == MessagesOf(before.wire, o))
    && (before.pending.Some? && before.pending.value.owner != owner ==> after.pending == before.pending)
    && (after.pending.Some? && after.pending.value.owner != owner ==> after.pending == before.pending)
  }

  /** What one sender put on the wire, in order. */
  function MessagesOf(wire: seq<Owned>, owner: nat): (log: seq<Message>) {
    if wire == [] then [] else
    var last := wire[|wire| - 1];
    MessagesOf(wire[..|wire| - 1], owner) + if last.owner == owner then [last.msg] else []
  }

  lemma {:induction false} MessagesSnoc(wire: seq<Owned>, o: Owned, owner: nat)
    ensures MessagesOf(wire + [o], owner) == MessagesOf(wire, owner) + if o.owner == owner then [o.msg] else []
  {
    assert (wire + [o])[..|wire|] == wire;
  }

  /** The data octets among messages, in order. */
  function DataBytes(log: seq<Message>): (s: seq<byte>) {
    if log == [] then [] else
    var last := log[|log| - 1];
    DataBytes(log[..|log| - 1]) + if last.DataMsg? then last.payload else []
  }

  lemma {:induction false} DataBytesSnoc(log: seq<Message>, m: Message)
    ensures DataBytes(log + [m]) == DataBytes(log) + if m.DataMsg? then m.payload else []
  {
    assert (log + [m])[..|log|] == log;
  }

  function CloseCount(log: seq<Message>): nat {
    if log == [] then 0 else
    CloseCount(log[..|log| - 1]) + if log[|log| - 1].CloseMsg? then 1 else 0
  }

  lemma {:induction false} CloseCountSnoc(log: seq<Message>, m: Message)
    ensures CloseCount(log + [m]) == CloseCount(log) + if m.CloseMsg? then 1 else 0
  {
    assert (log + [m])[..|log|] == log;
  }

  /** Window octets granted to the peer by adjust messages. */
  function AdjustTotal(log: seq<Message>): nat {
    if log == [] then 0 else
    AdjustTotal(log[..|log| - 1]) + if log[|log| - 1].AdjustMsg? then log[|log| - 1].amount else 0
  }

  lemma {:induction false} AdjustTotalSnoc(log: seq<Message>, m: Message)
    ensures AdjustTotal(log + [m]) == AdjustTotal(log) + if m.AdjustMsg? then m.amount else 0
  {
    assert (log + [m])[..|log|] == log;
  }

  predicate HasEof(log: seq<Message>) {
    exists i :: 0 <= i < |log| && log[i].EofMsg?
  }

  /** No data follows an EOF. */
  predicate NoDataAfterEof(log: seq<Message>) {
    forall i, j :: 0 <= i < j < |log| && log[i].EofMsg? ==> !log[j].DataMsg?
  }

  /** An EOF precedes every CLOSE. */
  predicate EofBeforeClose(log: seq<Message>) {
    forall j :: 0 <= j < |log| && log[j].CloseMsg? ==> HasEof(log[..j])
  }

  /** No data follows a CLOSE. */
  predicate NoDataAfterClose(log: seq<Message>) {
    forall i, j :: 0 <= i < j < |log| && log[i].CloseMsg? ==> !log[j].DataMsg?
  }

  lemma {:induction false} NothingAfterClose(log: seq<Message>)
    requires NoDataAfterEof(log) && EofBeforeClose(log)
    ensures NoDataAfterClose(log)
  {
    forall i, j | 0 <= i < j < |log| && log[i].CloseMsg?
      ensures !log[j].DataMsg?
    {
      assert HasEof(log[..i]);
      var k :| 0 <= k < i && log[..i][k].EofMsg?;
      assert log[k].EofMsg?;
    }
  }

  /** How sending one more message affects the order laws. */
  lemma {:induction false} OrderSnoc(log: seq<Message>, m: Message)
    requires NoDataAfterEof(log) && (m.DataMsg? ==> !HasEof(log))
    ensures NoDataAfterEof(log + [m])
    ensures HasEof(log + [m]) <==> HasEof(log) || m.EofMsg?
    ensures EofBeforeClose(log) && (m.CloseMsg? ==> HasEof(log)) ==> EofBeforeClose(log + [m])
  {
    var r := log + [m];
    assert r[..|log|] == log && r[|log|] == m;
    if HasEof(log) {
      var i :| 0 <= i < |log| && log[i].EofMsg?;
      assert r[i].EofMsg?;
    }
    if m.EofMsg? {
      assert r[|log|].EofMsg?;
    }
    if HasEof(r) && !m.EofMsg? {
      var i :| 0 <= i < |r| && r[i].EofMsg?;
      assert log[i].EofMsg?;
    }
    if EofBeforeClose(log) && (m.CloseMsg? ==> HasEof(log)) {
      forall j | 0 <= j < |r| && r[j].CloseMsg?
        ensures HasEof(r[..j])
      {
        if j < |log| {
          assert r[..j] == log[..j] && log[j].CloseMsg?;
        }
      }
    }
  }
}
