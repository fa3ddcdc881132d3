/**
 The session's queue of inbound packets.  All channels and streams share it; a
 read takes the octets of one channel and stream out of it and leaves the rest
 in place.
 */
module PacketQueue {
  import opened Bytes

  const FLUSH_EXTENDED := -1
  const FLUSH_ALL := -2

  datatype Kind = Data | Extended | Other(code: byte)

  /** A queued packet; `unread` is what lies behind its read position. */
  datatype Packet = Packet(kind: Kind, channel: nat, stream: int, unread: seq<byte>)

  /** Who reads: a channel, a stream, and whether stream 0 takes extended data too. */
  datatype Reader = Reader(channel: nat, stream: int, merge: bool)

  predicate Selects(r: Reader, p: Packet) {
    || (r.stream != 0 && p.kind == Extended && p.channel == r.channel && p.stream == r.stream)
    || (r.stream == 0 && p.kind == Data && p.channel == r.channel)
    || (r.stream == 0 && p.kind == Extended && p.channel == r.channel && r.merge)
  }

  lemma {:induction false} SelectsByHeader(r: Reader, p: Packet, unread: seq<byte>)
    ensures Selects(r, p.(unread := unread)) == Selects(r, p)
  {
  }

  /** The packet carries data for the channel, on whatever stream. */
  predicate IsFor(channel: nat, p: Packet) {
    (p.kind == Data || p.kind == Extended) && p.channel == channel
  }

  /** The octets that wait for a reader, in order. */
  function Unread(packets: seq<Packet>, r: Reader): (s: seq<byte>) {
    if packets == [] then []
    else (if Selects(r, packets[0]) then packets[0].unread else []) + Unread(packets[1..], r)
  }

  /** The packets that a reader leaves alone, in order. */
  function Others(packets: seq<Packet>, r: Reader): (s: seq<Packet>) {
    if packets == [] then []
    else (if Selects(r, packets[0]) then [] else [packets[0]]) + Others(packets[1..], r)
  }

  /** How many octets wait for a channel, on all streams. */
  function Total(packets: seq<Packet>, channel: nat): nat {
    if packets == [] then 0
    else (if IsFor(channel, packets[0]) then |packets[0].unread| else 0) + Total(packets[1..], channel)
  }

  /** What a read of up to `n` octets takes, and what it leaves. */
  datatype Drained = Drained(bytes: seq<byte>, rest: seq<Packet>)

  function Drain(packets: seq<Packet>, r: Reader, n: nat): (d: Drained) {
    if packets == [] || n == 0 then Drained([], packets)
    else if !Selects(r, packets[0]) then
      var d := Drain(packets[1..], r, n);
      Drained(d.bytes, [packets[0]] + d.rest)
    else if n >= |packets[0].unread| then
      var d := Drain(packets[1..], r, n - |packets[0].unread|);
      Drained(packets[0].unread + d.bytes, d.rest)
    else
      Drained(packets[0].unread[..n], [packets[0].(unread := packets[0].unread[n..])] + packets[1..])
  }

  /** One packet at the head of the queue, for what waits. */
  lemma {:induction false} UnreadCons(p: Packet, tail: seq<Packet>, r: Reader)
    ensures Unread([p] + tail, r) == if Selects(r, p) then p.unread + Unread(tail, r) else Unread(tail, r)
    ensures Others([p] + tail, r) == if Selects(r, p) then Others(tail, r) else [p] + Others(tail, r)
  {
    assert ([p] + tail)[1..] == tail;
  }

  /**
   A read takes the oldest octets that wait for the reader, as many as it can,
   and what it leaves waits in the same order; other packets are untouched.
   */
  lemma {:induction false} DrainTakesPrefix(packets: seq<Packet>, r: Reader, n: nat)
    ensures var d := Drain(packets, r, n);
            && d.bytes + Unread(d.rest, r) == Unread(packets, r)
            && |d.bytes| == (if n <= |Unread(packets, r)| then n else |Unread(packets, r)|)
            && Others(d.rest, r) == Others(packets, r)
  {
    hide Selects, Unread, Others;
    if packets != [] && n > 0 {
      var p, tail := packets[0], packets[1..];
      assert packets == [p] + tail;
      UnreadCons(p, tail, r);
      if !Selects(r, p) {
        DrainTakesPrefix(tail, r, n);
        UnreadCons(p, Drain(tail, r, n).rest, r);
      } else if n >= |p.unread| {
        DrainTakesPrefix(tail, r, n - |p.unread|);
        var d := Drain(tail, r, n - |p.unread|);
        assert p.unread + d.bytes + Unread(d.rest, r) == p.unread + (d.bytes + Unread(d.rest, r));
      } else {
        var q := p.(unread := p.unread[n..]);
        SelectsByHeader(r, p, q.unread);
        UnreadCons(q, tail, r);
        assert p.unread[..n] + (p.unread[n..] + Unread(tail, r)) == p.unread + Unread(tail, r);
      }
    } else {
      NothingUnread(r);
    }
  }

  /** The octets taken are subtracted from the channel's total and no other's. */
  lemma {:induction false} DrainTotal(packets: seq<Packet>, r: Reader, n: nat, channel: nat)
    ensures var d := Drain(packets, r, n);
            Total(packets, channel) == Total(d.rest, channel) + if channel == r.channel then |d.bytes| else 0
  {
    if packets != [] && n > 0 {
      var p, tail := packets[0], packets[1..];
      if !Selects(r, p) {
        DrainTotal(tail, r, n, channel);
        assert ([p] + Drain(tail, r, n).rest)[1..] == Drain(tail, r, n).rest;
      } else if n >= |p.unread| {
        DrainTotal(tail, r, n - |p.unread|, channel);
      } else {
        assert ([p.(unread := p.unread[n..])] + tail)[1..] == tail;
      }
    }
  }

  /** What waits for a reader counts towards the channel's total. */
  lemma {:induction false} UnreadWithinTotal(packets: seq<Packet>, r: Reader)
    ensures |Unread(packets, r)| <= Total(packets, r.channel)
  {
    if packets != [] {
      UnreadWithinTotal(packets[1..], r);
    }
  }

  /** No packet is for both readers. */
  ghost predicate Disjoint(r: Reader, s: Reader) {
    forall p :: !(Selects(r, p) && Selects(s, p))
  }

  /** What one reader leaves alone holds all that a disjoint reader waits for. */
  lemma {:induction false} UnreadOfOthers(packets: seq<Packet>, r: Reader, s: Reader)
    requires Disjoint(r, s)
    ensures Unread(packets, s) == Unread(Others(packets, r), s)
  {
    if packets != [] {
      var p, tail := packets[0], packets[1..];
      UnreadOfOthers(tail, r, s);
      assert [] + Others(tail, r) == Others(tail, r) && ([p] + Others(tail, r))[1..] == Others(tail, r);
      assert !(Selects(r, p) && Selects(s, p));
    }
  }

  lemma {:induction false} UnreadSnoc(packets: seq<Packet>, p: Packet, r: Reader)
    ensures Unread(packets + [p], r) == Unread(packets, r) + if Selects(r, p) then p.unread else []
  {
    if packets == [] {
      assert [] + [p] == [p] && [p][1..] == [];
      assert Unread([p], r) == (if Selects(r, p) then p.unread else []) + [];
    } else {
      assert (packets + [p])[1..] == packets[1..] + [p];
      UnreadSnoc(packets[1..], p, r);
    }
  }

  /**
   What waits for a reader, packet by packet: stream 0 takes the channel's data
   and, in merge mode, its extended data of every stream; another stream takes the
   channel's extended data of that stream.
   */
  lemma {:induction false} WhatIsRead(packets: seq<Packet>, p: Packet, channel: nat, stream: int)
    ensures Unread(packets + [p], Reader(channel, 0, false))
            == Unread(packets, Reader(channel, 0, false))
               + if p.channel == channel && p.kind == Data then p.unread else []
    ensures Unread(packets + [p], Reader(channel, 0, true))
            == Unread(packets, Reader(channel, 0, true))
               + if p.channel == channel && (p.kind == Data || p.kind == Extended) then p.unread else []
    ensures stream != 0 ==>
              forall merge ::
                Unread(packets + [p], Reader(channel, stream, merge))
                == Unread(packets, Reader(channel, stream, merge))
                   + if p.channel == channel && p.kind == Extended && p.stream == stream then p.unread else []
  {
    hide Unread;
    forall r {
      UnreadSnoc(packets, p, r);
    }
  }

  lemma {:induction false} TotalSnoc(packets: seq<Packet>, p: Packet, channel: nat)
    ensures Total(packets + [p], channel) == Total(packets, channel) + if IsFor(channel, p) then |p.unread| else 0
  {
    if packets == [] {
      assert [] + [p] == [p] && [p][1..] == [];
    } else {
      assert (packets + [p])[1..] == packets[1..] + [p];
      TotalSnoc(packets[1..], p, channel);
    }
  }

  /** The packet is one that a flush of `stream` drops. */
  predicate Flushes(p: Packet, id: nat, stream: int) {
    && IsFor(id, p)
    && (|| stream == FLUSH_ALL
        || (p.kind == Extended && (stream == FLUSH_EXTENDED || stream == p.stream))
        || (p.kind == Data && stream == 0))
  }

  /** What a flush leaves, in order. */
  function Kept(packets: seq<Packet>, id: nat, stream: int): seq<Packet> {
    if packets == [] then []
    else (if Flushes(packets[0], id, stream) then [] else [packets[0]]) + Kept(packets[1..], id, stream)
  }

  /** How many octets a flush drops. */
  function Dropped(packets: seq<Packet>, id: nat, stream: int): nat {
    if packets == [] then 0
    else (if Flushes(packets[0], id, stream) then |packets[0].unread| else 0) + Dropped(packets[1..], id, stream)
  }

  /**
   What a flush leaves, packet by packet: of its own channel, a flush of all
   streams leaves neither data nor extended data, one of all extended streams
   leaves the data, one of stream 0 leaves the extended data of other streams, and
   one of another stream leaves all but that stream.
   */
  lemma {:induction false} WhatIsKept(packets: seq<Packet>, p: Packet, id: nat, stream: int)
    ensures Kept(packets + [p], id, stream)
            == Kept(packets, id, stream)
               + if p.channel == id && ((stream == -2 && (p.kind == Data || p.kind == Extended))
                                        || (stream == -1 && p.kind == Extended)
                                        || (stream == 0 && (p.kind == Data || (p.kind == Extended && p.stream == 0)))
                                        || (p.kind == Extended && p.stream == stream))
                 then [] else [p]
  {
    if packets == [] {
      assert [] + [p] == [p] && [p][1..] == [];
      assert [] + Kept([], id, stream) == [] && [p] + Kept([], id, stream) == [p];
    } else {
      assert (packets + [p])[1..] == packets[1..] + [p];
      WhatIsKept(packets[1..], p, id, stream);
    }
  }

  lemma {:induction false} KeptStep(packets: seq<Packet>, i: nat, id: nat, stream: int)
    requires i < |packets|
    ensures var tail := packets[i + 1..];
            && Kept(packets[i..], id, stream) ==
               (if Flushes(packets[i], id, stream) then [] else [packets[i]]) + Kept(tail, id, stream)
            && Dropped(packets[i..], id, stream) ==
               (if Flushes(packets[i], id, stream) then |packets[i].unread| else 0) + Dropped(tail, id, stream)
  {
    assert packets[i..][1..] == packets[i + 1..];
  }

  lemma {:induction false} KeptNone(packets: seq<Packet>, i: nat, id: nat, stream: int)
    requires i == |packets|
    ensures Kept(packets[i..], id, stream) == [] && Dropped(packets[i..], id, stream) == 0
  {
  }

  /** A flush takes its octets from the channel's total and from no other's. */
  lemma {:induction false} KeptTotal(packets: seq<Packet>, id: nat, stream: int, channel: nat)
    ensures Total(packets, channel) ==
            Total(Kept(packets, id, stream), channel) + if channel == id then Dropped(packets, id, stream) else 0
  {
    if packets != [] {
      var p, tail := packets[0], packets[1..];
      KeptTotal(tail, id, stream, channel);
      assert ([p] + Kept(tail, id, stream))[1..] == Kept(tail, id, stream);
      assert [] + Kept(tail, id, stream) == Kept(tail, id, stream);
    }
  }

  /** A flush of one channel leaves the readers of others what they had. */
  lemma {:induction false} KeptUnread(packets: seq<Packet>, id: nat, stream: int, r: Reader)
    requires r.channel != id
    ensures Unread(Kept(packets, id, stream), r) == Unread(packets, r)
  {
    if packets != [] {
      var p, tail := packets[0], packets[1..];
      KeptUnread(tail, id, stream, r);
      assert ([p] + Kept(tail, id, stream))[1..] == Kept(tail, id, stream);
      assert [] + Kept(tail, id, stream) == Kept(tail, id, stream) && [] + Unread(tail, r) == Unread(tail, r);
    }
  }

  // ---- Runs of arrivals, reads and flushes

  datatype Event = Arrive(p: Packet) | Take(r: Reader, n: nat) | Drop(channel: nat, stream: int)

  /** The queue after one event. */
  function Next(packets: seq<Packet>, e: Event): seq<Packet> {
    match e
    case Arrive(p) => packets + [p]
    case Take(r, n) => Drain(packets, r, n).rest
    case Drop(channel, stream) => Kept(packets, channel, stream)
  }

  /** The queue after a run. */
  function After(run: seq<Event>): seq<Packet> {
    if run == [] then [] else Next(After(run[..|run| - 1]), run[|run| - 1])
  }

  /** One more event at the end of a run. */
  lemma {:induction false} RunSnoc(run: seq<Event>, e: Event, r: Reader)
    ensures After(run + [e]) == Next(After(run), e)
    ensures Returned(run + [e], r)
            == Returned(run, r) + if e.Take? && e.r == r then Drain(After(run), r, e.n).bytes else []
    ensures Arrived(run + [e], r) == Arrived(run, r) + if e.Arrive? && Selects(r, e.p) then e.p.unread else []
  {
    assert (run + [e])[..|run|] == run;
  }

  /** The octets that arrived for a reader. */
  function Arrived(run: seq<Event>, r: Reader): seq<byte> {
    if run == [] then [] else
    var last := run[|run| - 1];
    Arrived(run[..|run| - 1], r) + if last.Arrive? && Selects(r, last.p) then last.p.unread else []
  }

  /** The octets that were returned to a reader. */
  function Returned(run: seq<Event>, r: Reader): seq<byte> {
    if run == [] then [] else
    var last := run[|run| - 1];
    Returned(run[..|run| - 1], r)
    + if last.Take? && last.r == r then Drain(After(run[..|run| - 1]), r, last.n).bytes else []
  }

  /**
   Reads keep to a fixed mode per channel; in merge mode they are of stream 0.
   The given channel is not flushed.
   */
  ghost predicate FixedModes(run: seq<Event>, merge: nat -> bool, channel: nat) {
    forall i :: 0 <= i < |run| ==>
      && (run[i].Take? ==> InMode(run[i].r, merge))
      && (run[i].Drop? ==> run[i].channel != channel)
  }

  lemma {:induction false} FixedAppend(run: seq<Event>, more: seq<Event>, merge: nat -> bool, channel: nat)
    ensures FixedModes(run + more, merge, channel) <==>
            FixedModes(run, merge, channel) && FixedModes(more, merge, channel)
  {
    hide InMode;
    var all := run + more;
    assert forall i :: 0 <= i < |run| ==> run[i] == all[i];
    assert forall i :: 0 <= i < |more| ==> more[i] == all[|run| + i];
  }

  predicate InMode(r: Reader, merge: nat -> bool) {
    r.merge == merge(r.channel) && (r.merge ==> r.stream == 0)
  }

  lemma {:induction false} ReadersDisjoint(r: Reader, s: Reader, merge: nat -> bool)
    requires InMode(r, merge) && InMode(s, merge) && r != s
    ensures Disjoint(r, s)
  {
  }

  /**
   For every interleaving of arrivals, reads and flushes of other channels, on
   any channels, streams and buffer sizes: what was returned to a reader, then what still waits for it,
   is what arrived for it, in order.
   */
  lemma {:induction false} Lossless(run: seq<Event>, r: Reader, merge: nat -> bool)
    requires FixedModes(run, merge, r.channel) && InMode(r, merge)
    ensures Returned(run, r) + Unread(After(run), r) == Arrived(run, r)
  {
    hide Unread, Drain, Kept, Selects, InMode;
    if run != [] {
      var front, last := run[..|run| - 1], run[|run| - 1];
      Lossless(front, r, merge);
      var q := After(front);
      match last {
        case Arrive(p) =>
          UnreadSnoc(q, p, r);
        case Take(s, n) =>
          ReadStep(q, s, n, r, merge);
        case Drop(channel, stream) =>
          KeptUnread(q, channel, stream, r);
      }
    } else {
      NothingUnread(r);
    }
  }

  lemma {:induction false} NothingUnread(r: Reader)
    ensures Unread([], r) == []
  {
  }

  /** One read takes from its own reader's octets and from no other's. */
  lemma {:induction false} ReadStep(q: seq<Packet>, s: Reader, n: nat, r: Reader, merge: nat -> bool)
    requires InMode(s, merge) && InMode(r, merge)
    ensures (if s == r then Drain(q, s, n).bytes else []) + Unread(Drain(q, s, n).rest, r) == Unread(q, r)
  {
    hide Unread, Drain, Selects, InMode;
    var d := Drain(q, s, n);
    DrainTakesPrefix(q, s, n);
    if s != r {
      ReadersDisjoint(s, r, merge);
      UnreadOfOthers(q, s, r);
      UnreadOfOthers(d.rest, s, r);
      assert [] + Unread(d.rest, r) == Unread(d.rest, r);
    }
  }
}
