/**
 The session's channels and their ids: the session list, the queues of
 listeners, and how channels are opened, queued, accepted, freed and found.
 */
module ChannelTable {
  import opened Bytes
  import opened Transport
  import PacketQueue

  datatype OpenState = OpenIdle | OpenCreated | OpenSent

  /** What the peer answers to an open request, as far as it has come. */
  datatype OpenReply = Confirmed(remoteId: uint32, window: uint32, packetSize: uint32) | Refused | NoReply | BrokenReply

  datatype ListenState = ListenIdle | ListenCreated | ListenSent

  /** The answer to a forwarded connection. */
  datatype Answer = Confirm(id: uint32) | Decline(code: nat)

  const ADMINISTRATIVELY_PROHIBITED := 1
  const RESOURCE_SHORTAGE := 4

  class Channel {
    const id: uint32
    var remoteId: uint32
    var window: uint32
    var packetSize: uint32

    constructor (id: uint32)
      ensures this.id == id
    {
      this.id := id;
      remoteId, window, packetSize := 0, 0, 0;
    }
  }

  class Listener {
    const host: seq<byte>
    const port: int
    const queueMax: nat
    var queue: seq<Channel>
    var queueSize: nat
    var cancelSent: bool

    constructor (host: seq<byte>, port: int, queueMax: nat)
      ensures this.host == host && this.port == port && this.queueMax == queueMax
      ensures queue == [] && queueSize == 0 && !cancelSent
    {
      this.host, this.port, this.queueMax := host, port, queueMax;
      queue, queueSize, cancelSent := [], 0, false;
    }

    predicate IsAt(host: seq<byte>, port: int) {
      this.port == port && this.host == host
    }

    /** The size counts what is queued, and keeps to the limit. */
    ghost predicate Valid()
      reads this
    {
      && |queue| <= queueSize && (!cancelSent ==> queueSize == |queue|)
      && (queueMax != 0 ==> queueSize <= queueMax)
    }
  }

  // ---- Lists of channels, as values

  /** No two linked channels share an id. */
  ghost predicate Distinct(lists: seq<seq<Channel>>) {
    forall g, i, h, j :: 0 <= g < |lists| && 0 <= h < |lists| && 0 <= i < |lists[g]| && 0 <= j < |lists[h]| ==>
      lists[g][i].id == lists[h][j].id ==> g == h && i == j
  }

  ghost predicate Below(lists: seq<seq<Channel>>, n: nat) {
    forall g, i :: 0 <= g < |lists| && 0 <= i < |lists[g]| ==> lists[g][i].id < n
  }

  /**
   The laws of channel ids after `issued` of them were given out.  `strays` are
   ids that were given out for a channel that was then never linked.
   */
  ghost predicate IdLaw(lists: seq<seq<Channel>>, next: uint32, issued: nat, strays: set<uint32>) {
    issued <= TWO_32 ==>
      && Distinct(lists) && Below(lists, issued) && next == issued % TWO_32
      && forall x :: x in strays ==> x < issued && !InUse(lists, x)
  }

  /** A channel with the latest id is linked at the end of a list. */
  lemma {:induction false} LinkKeeps(lists: seq<seq<Channel>>, g: nat, c: Channel, next: uint32, issued: nat,
                                     strays: set<uint32>)
    requires g < |lists| && issued > 0 && IdLaw(lists, next, issued, strays)
    requires issued <= TWO_32 ==> Below(lists, issued - 1) && c.id == issued - 1 && c.id !in strays
    ensures IdLaw(lists[g := lists[g] + [c]], next, issued, strays)
  {
  }

  /** A channel is unlinked. */
  lemma {:induction false} UnlinkKeeps(lists: seq<seq<Channel>>, g: nat, i: nat, next: uint32, issued: nat,
                                       strays: set<uint32>)
    requires g < |lists| && i < |lists[g]| && IdLaw(lists, next, issued, strays)
    ensures IdLaw(lists[g := lists[g][..i] + lists[g][i + 1..]], next, issued, strays)
  {
    var s := lists[g][..i] + lists[g][i + 1..];
    assert forall k :: 0 <= k < |s| ==> s[k] == lists[g][if k < i then k else k + 1];
  }

  /** The first channel of one list goes to the end of another. */
  lemma {:induction false} MoveKeeps(lists: seq<seq<Channel>>, g: nat, h: nat, next: uint32, issued: nat,
                                     strays: set<uint32>)
    requires g < |lists| && h < |lists| && g != h && |lists[h]| > 0 && IdLaw(lists, next, issued, strays)
    ensures IdLaw(lists[h := lists[h][1..]][g := lists[g] + [lists[h][0]]], next, issued, strays)
  {
  }

  /** A list disappears, or an empty one is added. */
  lemma {:induction false} ListsKeep(lists: seq<seq<Channel>>, g: nat, next: uint32, issued: nat, strays: set<uint32>)
    requires g < |lists| && IdLaw(lists, next, issued, strays)
    ensures IdLaw(lists[..g] + lists[g + 1..], next, issued, strays)
    ensures IdLaw(lists + [[]], next, issued, strays)
  {
    var s := lists[..g] + lists[g + 1..];
    assert forall k :: 0 <= k < |s| ==> s[k] == lists[if k < g then k else k + 1];
  }

  // ---- Ids

  /** What the search for the next id yields: the highest of the counter and the ids in the session list. */
  ghost predicate IsNext(channels: seq<Channel>, start: uint32, id: uint32) {
    && id >= start && (forall i :: 0 <= i < |channels| ==> id >= channels[i].id)
    && (id == start || exists i :: 0 <= i < |channels| && channels[i].id == id)
  }

  /**
   The id is in use already exactly when the session list holds an id from the
   counter on, or some listener's queue holds the counter itself.
   */
  lemma {:induction false} NextIsTaken(lists: seq<seq<Channel>>, start: uint32, id: uint32)
    requires |lists| > 0 && IsNext(lists[0], start, id)
    ensures InUse(lists, id) <==> Overtaken(lists[0], start) || InUse(lists[1..], start)
  {
    if g, i :| 0 <= g < |lists| && 0 <= i < |lists[g]| && lists[g][i].id == id {
      assert g > 0 ==> lists[1..][g - 1] == lists[g];
    }
    if i :| 0 <= i < |lists[0]| && lists[0][i].id >= start {
      assert id == start ==> lists[0][i].id == id;
    }
    if g, i :| 0 <= g < |lists[1..]| && 0 <= i < |lists[1..][g]| && lists[1..][g][i].id == start {
      assert lists[g + 1][i].id == start;
    }
  }

  /** Some linked channel has the id. */
  ghost predicate InUse(lists: seq<seq<Channel>>, id: uint32) {
    exists g, i :: 0 <= g < |lists| && 0 <= i < |lists[g]| && lists[g][i].id == id
  }

  /** Some channel of a list has the id of the counter or a higher one. */
  ghost predicate Overtaken(channels: seq<Channel>, start: uint32) {
    exists i :: 0 <= i < |channels| && channels[i].id >= start
  }

  /** Giving out an id keeps the law, and the id is new. */
  lemma {:induction false} IssueKeeps(lists: seq<seq<Channel>>, next: uint32, issued: nat, strays: set<uint32>,
                                      id: uint32)
    requires |lists| > 0 && IdLaw(lists, next, issued, strays) && IsNext(lists[0], next, id)
    ensures IdLaw(lists, (id + 1) % TWO_32, issued + 1, strays)
    ensures issued < TWO_32 ==> id == issued && Below(lists, id) && id !in strays
  {
    hide Distinct;
    if issued < TWO_32 {
      assert forall i :: 0 <= i < |lists[0]| ==> lists[0][i].id < issued;
    }
  }

  /** The latest id is left without a channel. */
  lemma {:induction false} StrayKeeps(lists: seq<seq<Channel>>, next: uint32, issued: nat, strays: set<uint32>,
                                      id: uint32)
    requires IdLaw(lists, next, issued, strays) && issued > 0
    requires issued <= TWO_32 ==> id == issued - 1 && Below(lists, id)
    ensures IdLaw(lists, next, issued, strays + {id})
  {
    hide Distinct;
  }

  /** A confirmation that went out: the id in it, and whether it did in the call that took the id. */
  datatype Told = Told(id: uint32, atOnce: bool)

  /** The ids that the peer was told are strays exactly when their confirmation went out later. */
  ghost predicate ToldLaw(told: seq<Told>, issued: nat, strays: set<uint32>) {
    issued <= TWO_32 ==>
      forall k :: 0 <= k < |told| ==> told[k].id < issued && (told[k].id in strays <==> !told[k].atOnce)
  }

  lemma {:induction false} ToldStep(told: seq<Told>, issued: nat, strays: set<uint32>, t: Told)
    requires ToldLaw(told, issued, strays) && (issued <= TWO_32 ==> t.id < issued && (t.id in strays <==> !t.atOnce))
    ensures ToldLaw(told + [t], issued, strays)
  {
  }

  /** A list of channels without one of them. */
  function Without(s: seq<Channel>, c: Channel): (r: seq<Channel>) {
    if s == [] then [] else if s[0] == c then s[1..] else [s[0]] + Without(s[1..], c)
  }

  lemma {:induction false} WithoutStep(s: seq<Channel>, i: nat, c: Channel)
    requires i < |s|
    ensures Without(s[i..], c) == if s[i] == c then s[i + 1..] else [s[i]] + Without(s[i + 1..], c)
    ensures s[..i + 1] == s[..i] + [s[i]]
  {
    assert s[i..][1..] == s[i + 1..];
  }

  /** Taking out a channel that was just added gives the list before. */
  lemma {:induction false} WithoutAdded(s: seq<Channel>, c: Channel)
    requires c !in s
    ensures Without(s + [c], c) == s
  {
    if s != [] {
      assert (s + [c])[1..] == s[1..] + [c];
      WithoutAdded(s[1..], c);
    }
  }

  /** The packets without the data of one channel. */
  function Cleared(packets: seq<PacketQueue.Packet>, id: uint32): seq<PacketQueue.Packet> {
    PacketQueue.Kept(packets, id, PacketQueue.FLUSH_ALL)
  }

  /** The packets without the data of several channels. */
  function ClearedAll(packets: seq<PacketQueue.Packet>, channels: seq<Channel>): seq<PacketQueue.Packet> {
    if channels == [] then packets
    else Cleared(ClearedAll(packets, channels[..|channels| - 1]), channels[|channels| - 1].id)
  }

  lemma {:induction false} NoneCleared(packets: seq<PacketQueue.Packet>, channels: seq<Channel>)
    ensures ClearedAll(packets, channels[..0]) == packets
  {
  }

  lemma {:induction false} OneCleared(packets: seq<PacketQueue.Packet>, channels: seq<Channel>, n: nat)
    requires n < |channels|
    ensures ClearedAll(packets, channels[..n + 1]) == Cleared(ClearedAll(packets, channels[..n]), channels[n].id)
  {
    hide Cleared;
    assert channels[..n + 1][..n] == channels[..n];
  }

  /** The close of the `i`-th channel would block. */
  predicate Blocks(closes: seq<Rc>, i: nat) {
    i < |closes| && closes[i] == Eagain
  }

  /** How many of `n` channels are freed before a close blocks. */
  function Unblocked(closes: seq<Rc>, n: nat): (k: nat)
    ensures k <= n && (forall i :: 0 <= i < k ==> !Blocks(closes, i)) && (k < n ==> Blocks(closes, k))
  {
    if n == 0 then 0 else
    var k := Unblocked(closes, n - 1);
    if k == n - 1 && !Blocks(closes, k) then n else k
  }

  lemma {:induction false} UnblockedIs(closes: seq<Rc>, n: nat, k: nat)
    requires k <= n && (forall i :: 0 <= i < k ==> !Blocks(closes, i)) && (k < n ==> Blocks(closes, k))
    ensures Unblocked(closes, n) == k
  {
  }

  ghost function QueuesOf(listeners: seq<Listener>): (s: seq<seq<Channel>>)
    reads listeners`queue
    ensures |s| == |listeners| && forall k :: 0 <= k < |listeners| ==> s[k] == listeners[k].queue
  {
    if listeners == [] then [] else [listeners[0].queue] + QueuesOf(listeners[1..])
  }

  /** The channel is in one of the lists. */
  ghost predicate Linked(lists: seq<seq<Channel>>, c: Channel) {
    exists g, i :: 0 <= g < |lists| && 0 <= i < |lists[g]| && lists[g][i] == c
  }

  predicate Missing(s: seq<Channel>, id: uint32) {
    forall i :: 0 <= i < |s| ==> s[i].id != id
  }

  lemma {:induction false} Found(lists: seq<seq<Channel>>, g: nat, i: nat, next: uint32, issued: nat,
                                 strays: set<uint32>)
    requires IdLaw(lists, next, issued, strays) && g < |lists| && i < |lists[g]|
    ensures Linked(lists, lists[g][i])
    ensures issued <= TWO_32 ==> forall d :: Linked(lists, d) && d.id == lists[g][i].id ==> d == lists[g][i]
  {
  }

  lemma {:induction false} NotFound(lists: seq<seq<Channel>>, id: uint32)
    requires forall g :: 0 <= g < |lists| ==> Missing(lists[g], id)
    ensures forall d :: Linked(lists, d) ==> d.id != id
  {
  }

  /** Other channels stay. */
  lemma {:induction false} WithoutKeeps(s: seq<Channel>, c: Channel)
    ensures forall d :: d in s && d != c ==> d in Without(s, c)
  {
    if s != [] {
      WithoutKeeps(s[1..], c);
    }
  }

  class Session {
    var channels: seq<Channel>
    var listeners: seq<Listener>
    var packets: seq<PacketQueue.Packet>
    var nextChannel: uint32
    var openState: OpenState
    var openChannel: Channel?
    var listenState: ListenState
    /** The id in the confirmation, or the code in the refusal, that is being sent. */
    var listenId: uint32
    var listenCode: nat
    /** How many ids were given out, and which of them never got a linked channel. */
    ghost var issued: nat
    ghost var strays: set<uint32>
    /** The confirmations of forwarded connections that went out. */
    ghost var told: seq<Told>

    /** All lists that hold channels: the session's own, then the listeners' queues. */
    ghost function Lists(): (s: seq<seq<Channel>>)
      reads `channels, `listeners, listeners`queue
      ensures |s| == |listeners| + 1 && s[0] == channels
    {
      [channels] + QueuesOf(listeners)
    }

    lemma {:induction false} ListAt(k: nat)
      requires k < |listeners|
      ensures Lists()[k + 1] == listeners[k].queue
    {
    }

    ghost predicate ListenersValid()
      reads `listeners, listeners
    {
      && (forall k :: 0 <= k < |listeners| ==> listeners[k].Valid())
      && (forall k, l :: 0 <= k < l < |listeners| ==> listeners[k] != listeners[l])
    }

    ghost predicate Valid()
      reads `channels, `listeners, `nextChannel, `issued, `strays, `told, `listenState, `listenId, `openState,
            `openChannel, listeners
    {
      && ListenersValid()
      && IdLaw(Lists(), nextChannel, issued, strays)
      && ToldLaw(told, issued, strays) && (listenState == ListenCreated ==> listenId in strays)
      && (openState != OpenIdle ==> openChannel != null && openChannel in channels)
    }

    constructor ()
      ensures Valid() && channels == [] && listeners == [] && issued == 0 && strays == {} && told == []
      ensures openState == OpenIdle && openChannel == null && listenState == ListenIdle
    {
      channels, listeners, packets, nextChannel := [], [], [], 0;
      openState, openChannel, listenState, listenId, listenCode, issued := OpenIdle, null, ListenIdle, 0, 0, 0;
      strays, told := {}, [];
    }

    /** The peer was told lower ids only. */
    ghost predicate ToldBelow(id: uint32)
      reads `told
    {
      forall k :: 0 <= k < |told| ==> told[k].id < id
    }

    /** Gives out an id: a new one, up to 2^32 of them. */
    method NextId() returns (id: uint32)
      requires Valid()
      modifies `nextChannel, `issued
      ensures Valid() && issued == old(issued) + 1
      ensures IsNext(channels, old(nextChannel), id) && nextChannel == (id + 1) % TWO_32
      ensures issued <= TWO_32 ==> id == issued - 1 && Below(Lists(), id) && id !in strays && ToldBelow(id)
      ensures InUse(Lists(), id) <==> Overtaken(channels, old(nextChannel)) || InUse(Lists()[1..], old(nextChannel))
    {
      hide IdLaw, Below, Distinct, Session.ListenersValid, Session.Lists, InUse, Overtaken;
      id := nextChannel;
      for i := 0 to |channels|
        invariant id >= nextChannel && forall k :: 0 <= k < i ==> id >= channels[k].id
        invariant id == nextChannel || exists k :: 0 <= k < i && channels[k].id == id
      {
        if channels[i].id > id {
          id := channels[i].id;
        }
      }
      IssueKeeps(Lists(), nextChannel, issued, strays, id);
      NextIsTaken(Lists(), nextChannel, id);
      nextChannel := (id + 1) % TWO_32;
      issued := issued + 1;
    }

    /** Finds the channel with an id, in the session list or a listener's queue. */
    method Locate(id: uint32) returns (c: Channel?)
      requires Valid()
      ensures c != null ==> c.id == id && Linked(Lists(), c)
      ensures c == null <==> forall d :: Linked(Lists(), d) ==> d.id != id
      ensures issued <= TWO_32 ==> forall d :: Linked(Lists(), d) && d.id == id ==> d == c
    {
      hide Session.ListenersValid, Session.Lists, IdLaw, Linked;
      for i := 0 to |channels|
        invariant Missing(channels[..i], id)
      {
        if channels[i].id == id {
          Found(Lists(), 0, i, nextChannel, issued, strays);
          return channels[i];
        }
      }
      assert channels[..|channels|] == channels == Lists()[0];
      for l := 0 to |listeners|
        invariant forall g :: 0 <= g <= l ==> Missing(Lists()[g], id)
      {
        var queue := listeners[l].queue;
        ListAt(l);
        for i := 0 to |queue|
          invariant Missing(queue[..i], id)
        {
          if queue[i].id == id {
            Found(Lists(), l + 1, i, nextChannel, issued, strays);
            return queue[i];
          }
        }
        assert queue[..|queue|] == queue == Lists()[l + 1];
      }
      NotFound(Lists(), id);
      return null;
    }

    // ---- Opening

    /**
     Opens a channel: it is linked from the start, and unlinked again when the
     request cannot be sent or is refused.
     */
    method Open(outcome: SendResult, reply: OpenReply) returns (c: Channel?)
      requires Valid()
      modifies `channels, `packets, `nextChannel, `issued, `openState, `openChannel, openChannel
      ensures Valid()
      ensures openChannel == null || fresh(openChannel)
                || (openChannel == old(openChannel) && old(openState) != OpenIdle)
      ensures issued == old(issued) + if old(openState) == OpenIdle then 1 else 0
      ensures c != null ==> && openState == OpenIdle && c in channels && reply.Confirmed?
                            && c.remoteId == reply.remoteId && c.window == reply.window
                            && c.packetSize == reply.packetSize
      ensures reply.Confirmed? && (outcome == Sent || old(openState) == OpenSent) ==> c != null
      ensures c != null && old(openState) != OpenIdle ==> c == old(openChannel) && channels == old(channels)
      ensures c != null && old(openState) == OpenIdle ==> channels == old(channels) + [c] && fresh(c)
      ensures c != null && old(openState) == OpenIdle && issued <= TWO_32 ==> c.id == issued - 1
      ensures c != null || openState != OpenIdle ==> packets == old(packets)
      ensures c == null && openState == OpenIdle && old(openState) == OpenIdle && issued <= TWO_32 ==>
                packets == Cleared(old(packets), issued - 1)
      ensures c == null && openState == OpenIdle && old(openState) != OpenIdle ==>
                packets == Cleared(old(packets), old(openChannel).id)
      ensures c == null && openState == OpenIdle ==>
                channels == if old(openState) == OpenIdle then old(channels)
                            else Without(old(channels), old(openChannel))
    {
      hide IdLaw, Session.ListenersValid, Session.Lists, Without;
      ghost var before := channels;
      if openState == OpenIdle {
        BeginOpen();
        WithoutAdded(before, openChannel);
      }
      if openState == OpenCreated {
        match outcome {
          case Again => return null;
          case Failed =>
            AbandonOpen();
            return null;
          case Sent => openState := OpenSent;
        }
      }
      match reply {
        case NoReply => return null;
        case Confirmed(remoteId, window, packetSize) =>
          openChannel.remoteId, openChannel.window, openChannel.packetSize := remoteId, window, packetSize;
          openState := OpenIdle;
          return openChannel;
        case _ =>
          AbandonOpen();
          return null;
      }
    }

    /** Takes an id and links a new channel. */
    method BeginOpen()
      requires Valid() && openState == OpenIdle
      modifies `nextChannel, `issued, `channels, `openChannel, `openState
      ensures Valid() && openState == OpenCreated && issued == old(issued) + 1
      ensures openChannel != null && fresh(openChannel) && channels == old(channels) + [openChannel]
      ensures issued <= TWO_32 ==> openChannel.id == issued - 1
    {
      hide IdLaw, Below, Distinct, Session.ListenersValid, Session.Lists;
      var id := NextId();
      var c := new Channel(id);
      LinkKeeps(Lists(), 0, c, nextChannel, issued, strays);
      Relist(channels + [c]);
      openChannel, openState := c, OpenCreated;
    }

    /** Unlinks the channel that could not be opened. */
    method AbandonOpen()
      requires Valid() && openState != OpenIdle
      modifies `channels, `packets, `openChannel, `openState
      ensures Valid() && openState == OpenIdle && openChannel == null
      ensures channels == Without(old(channels), old(openChannel))
      ensures packets == Cleared(old(packets), old(openChannel).id)
    {
      hide IdLaw, Session.ListenersValid, Without, Session.Lists, Cleared;
      Unlink(openChannel);
      ClearPackets(openChannel.id);
      openChannel, openState := null, OpenIdle;
    }

    /** Drops the data packets that are queued for a channel, one after the other. */
    method ClearPackets(id: uint32)
      modifies `packets
      ensures packets == Cleared(old(packets), id)
    {
      hide PacketQueue.Kept, PacketQueue.Flushes;
      var i := 0;
      assert packets[0..] == packets;
      while i < |packets|
        invariant 0 <= i <= |packets|
        invariant packets[..i] + Cleared(packets[i..], id) == Cleared(old(packets), id)
        decreases |packets| - i
      {
        ghost var kept, tail := packets[..i], packets[i + 1..];
        PacketQueue.KeptStep(packets, i, id, PacketQueue.FLUSH_ALL);
        if PacketQueue.Flushes(packets[i], id, PacketQueue.FLUSH_ALL) {
          packets := packets[..i] + packets[i + 1..];
          assert packets[..i] == kept && packets[i..] == tail;
        } else {
          assert packets[..i + 1] == kept + [packets[i]];
          i := i + 1;
        }
      }
      PacketQueue.KeptNone(packets, i, id, PacketQueue.FLUSH_ALL);
      assert packets[..i] + [] == packets;
    }

    /** A packet arrives. */
    method Arrive(p: PacketQueue.Packet)
      modifies `packets
      ensures packets == old(packets) + [p]
    {
      packets := packets + [p];
    }

    /** Takes a channel out of the session list. */
    method Unlink(c: Channel)
      requires ListenersValid() && IdLaw(Lists(), nextChannel, issued, strays) && c in channels
      modifies `channels
      ensures ListenersValid() && IdLaw(Lists(), nextChannel, issued, strays) && channels == Without(old(channels), c)
    {
      hide IdLaw, Session.ListenersValid, Without, Session.Lists;
      var i := Position(channels, c);
      UnlinkKeeps(Lists(), 0, i, nextChannel, issued, strays);
      Relist(channels[..i] + channels[i + 1..]);
    }

    /** Changes the session list. */
    method Relist(s: seq<Channel>)
      requires ListenersValid()
      modifies `channels
      ensures ListenersValid() && channels == s && Lists() == old(Lists())[0 := s]
    {
      hide QueuesOf, Session.ListenersValid;
      channels := s;
      assert [s] + QueuesOf(listeners) == ([old(channels)] + QueuesOf(listeners))[0 := s];
    }

    /** Changes the queue of a listener. */
    method Requeue(k: nat, queue: seq<Channel>, size: nat)
      requires ListenersValid() && k < |listeners|
      requires |queue| <= size && (!listeners[k].cancelSent ==> size == |queue|)
      requires listeners[k].queueMax != 0 ==> size <= listeners[k].queueMax
      modifies listeners[k]
      ensures ListenersValid() && listeners[k].queue == queue && listeners[k].cancelSent == old(listeners[k].cancelSent)
      ensures Lists() == old(Lists())[k + 1 := queue]
    {
      hide QueuesOf;
      listeners[k].queue, listeners[k].queueSize := queue, size;
    }

    // ---- Forwarded connections

    /**
     The peer reports a connection to a port this side listens on.  A channel is
     confirmed and queued at the matching listener, or the connection is
     declined.  A confirmation that blocks and is sent by a later call leaves its
     channel out of the queue: `queued` is null, though the peer is told the id.
     */
    method QueueConnection(host: seq<byte>, port: int, outcome: SendResult)
      returns (rc: Rc, answer: Option<Answer>, queued: Channel?)
      requires Valid()
      modifies `nextChannel, `issued, `strays, `told, `listenState, `listenId, `listenCode, listeners
      ensures Valid() && listeners == old(listeners)
      ensures (rc == Ok <==> answer.Some?) && (rc == Eagain <==> listenState != ListenIdle)
      ensures rc == (match outcome case Sent => Ok case Again => Eagain case Failed => Err)
              || (rc == Err && old(listenState) == ListenCreated && NoListener(host, port))
      ensures old(issued) <= issued <= old(issued) + if old(listenState) == ListenIdle then 1 else 0
      // a refusal and its code
      ensures old(listenState) == ListenIdle && Declines(answer) ==>
                && (listenCode == ADMINISTRATIVELY_PROHIBITED <==> NoListener(host, port))
                && (listenCode != ADMINISTRATIVELY_PROHIBITED ==>
                    listenCode == RESOURCE_SHORTAGE && FullListener(host, port))
      ensures old(listenState) == ListenIdle && NoListener(host, port) && rc != Err ==> Declines(answer)
      ensures old(listenState) == ListenSent ==> listenCode == old(listenCode) && (rc != Err ==> Declines(answer))
      ensures answer.Some? && answer.value.Decline? ==> answer.value.code == listenCode
      // a confirmation: its channel is linked exactly when it went out in the call that took its id
      ensures old(listenState) == ListenCreated && answer.Some? ==> answer == Some(Confirm(old(listenId)))
      ensures answer.Some? && answer.value.Confirm? ==>
                && told == old(told) + [Told(answer.value.id, old(listenState) == ListenIdle)]
                && (issued <= TWO_32 ==> (InUse(Lists(), answer.value.id) <==> old(listenState) == ListenIdle))
      ensures !(answer.Some? && answer.value.Confirm?) ==> told == old(told)
      ensures old(strays) <= strays && (listenState == ListenCreated ==> listenId in strays)
      // and which channel it is
      ensures answer.Some? && answer.value.Confirm? ==>
                answer.value.id == if queued == null then old(listenId) else queued.id
      ensures queued == null ==> Lists() == old(Lists())
      ensures queued != null <==> old(listenState) == ListenIdle && answer.Some? && answer.value.Confirm?
      ensures queued != null ==> fresh(queued) && exists k :: AppendedAt(k, host, port, old(Lists()), queued)
      ensures queued != null && issued <= TWO_32 ==> queued.id == issued - 1
    {
      hide IdLaw, Session.ListenersValid, Session.Lists, Below, InUse, ToldLaw;
      if listenState == ListenSent {
        rc, answer := Refuse(outcome);
        return rc, answer, null;
      }
      var k := Matching(host, port);
      if listenState == ListenCreated {
        // Another message than the blocked confirmation is refused by the transport.
        StrayUnlinked(listenId);
        rc, answer := Resume(if k < |listeners| then outcome else Failed);
        return rc, answer, null;
      }
      if k < |listeners| && !(listeners[k].queueMax != 0 && listeners[k].queueMax <= listeners[k].queueSize) {
        rc, answer, queued := Confirming(k, outcome);
        assert queued != null ==> AppendedAt(k, host, port, old(Lists()), queued);
        return;
      }
      listenState, listenCode := ListenSent, if k < |listeners| then RESOURCE_SHORTAGE else ADMINISTRATIVELY_PROHIBITED;
      assert k < |listeners| ==> listeners[k].IsAt(host, port) && 0 < listeners[k].queueMax <= listeners[k].queueSize;
      rc, answer := Refuse(outcome);
      queued := null;
    }

    ghost predicate NoListener(host: seq<byte>, port: int)
      reads `listeners
    {
      forall k :: 0 <= k < |listeners| ==> !listeners[k].IsAt(host, port)
    }

    /** A listener for the host and port has a full queue. */
    ghost predicate FullListener(host: seq<byte>, port: int)
      reads `listeners, listeners
    {
      exists k :: 0 <= k < |listeners| && listeners[k].IsAt(host, port)
          && 0 < listeners[k].queueMax <= listeners[k].queueSize
    }

    /** The connection is declined, now or when the blocked refusal goes out. */
    ghost predicate Declines(answer: Option<Answer>)
      reads `listenState
    {
      (answer.Some? && answer.value.Decline?) || listenState == ListenSent
    }

    /** Sends a refusal, with the code that was decided on first. */
    method Refuse(outcome: SendResult) returns (rc: Rc, answer: Option<Answer>)
      requires listenState == ListenSent
      modifies `listenState
      ensures rc == match outcome case Sent => Ok case Again => Eagain case Failed => Err
      ensures listenState == if rc == Eagain then ListenSent else ListenIdle
      ensures answer == if rc == Ok then Some(Decline(listenCode)) else None
    {
      match outcome {
        case Again => rc, answer := Eagain, None;
        case Failed =>
          listenState := ListenIdle;
          rc, answer := Err, None;
        case Sent =>
          listenState := ListenIdle;
          rc, answer := Ok, Some(Decline(listenCode));
      }
    }

    /** The first listener for a host and port. */
    method Matching(host: seq<byte>, port: int) returns (k: nat)
      ensures k <= |listeners| && (k < |listeners| ==> listeners[k].IsAt(host, port))
      ensures forall l :: 0 <= l < k ==> !listeners[l].IsAt(host, port)
    {
      k := 0;
      while k < |listeners| && !(listeners[k].port == port && listeners[k].host == host)
        invariant 0 <= k <= |listeners|
        invariant forall l :: 0 <= l < k ==> !listeners[l].IsAt(host, port)
      {
        k := k + 1;
      }
    }

    /** The channel went to the end of the queue of a listener for the host and port; all other lists are as before. */
    ghost predicate AppendedAt(k: nat, host: seq<byte>, port: int, before: seq<seq<Channel>>, c: Channel)
      reads `channels, `listeners, listeners`queue
    {
      && k < |listeners| && k + 1 < |before| && listeners[k].IsAt(host, port)
      && Lists() == before[k + 1 := before[k + 1] + [c]]
    }

    /** Takes an id, confirms the connection and queues its channel. */
    method Confirming(k: nat, outcome: SendResult) returns (rc: Rc, answer: Option<Answer>, queued: Channel?)
      requires Valid() && listenState == ListenIdle && k < |listeners|
      requires listeners[k].queueMax == 0 || listeners[k].queueSize < listeners[k].queueMax
      modifies `nextChannel, `issued, `strays, `told, `listenState, `listenId, listeners[k]
      ensures Valid() && issued == old(issued) + 1 && old(strays) <= strays
      ensures told == old(told) + if rc == Ok then [Told(listenId, true)] else []
      ensures rc == Ok && issued <= TWO_32 ==> InUse(Lists(), listenId)
      ensures rc == match outcome case Sent => Ok case Again => Eagain case Failed => Err
      ensures listenState == if rc == Eagain then ListenCreated else ListenIdle
      ensures rc != Ok ==> answer == None && queued == null && Lists() == old(Lists())
      ensures queued != null && issued <= TWO_32 ==> queued.id == issued - 1
      ensures rc == Ok ==>
                && queued != null && fresh(queued) && answer == Some(Confirm(queued.id)) && queued.id == listenId
                           && Lists() == old(Lists())[k + 1 := old(Lists())[k + 1] + [queued]]
    {
      hide IdLaw, Below, Distinct, Session.ListenersValid, Session.Lists, InUse, ToldLaw, Overtaken, IsNext,
           Session.ToldBelow;
      var id := NextId();
      var c := new Channel(id);
      listenId := id;
      match outcome {
        case Again =>
          MarkStray(id);
          listenState := ListenCreated;
          rc, answer, queued := Eagain, None, null;
        case Failed =>
          MarkStray(id);
          rc, answer, queued := Err, None, null;
        case Sent =>
          LinkConfirmed(k, c);
          rc, answer, queued := Ok, Some(Confirm(id)), c;
      }
    }

    /** The confirmation is out: the channel is linked. */
    method LinkConfirmed(k: nat, c: Channel)
      requires Valid() && k < |listeners| && issued > 0
      requires issued <= TWO_32 ==> c.id == issued - 1 && Below(Lists(), c.id) && c.id !in strays
      requires listeners[k].queueMax == 0 || listeners[k].queueSize < listeners[k].queueMax
      modifies `told, listeners[k]
      ensures Valid() && Lists() == old(Lists())[k + 1 := old(Lists())[k + 1] + [c]] && InUse(Lists(), c.id)
      ensures told == old(told) + [Told(c.id, true)]
    {
      hide IdLaw, Below, Session.ListenersValid, Session.Lists, InUse, ToldLaw;
      Enqueue(k, c);
      LastInUse(old(Lists())[k + 1], k + 1, c);
      ToldStep(told, issued, strays, Told(c.id, true));
      told := told + [Told(c.id, true)];
    }

    /** The latest id is left without a channel. */
    ghost method MarkStray(id: uint32)
      requires Valid() && issued > 0 && listenState == ListenIdle
      requires issued <= TWO_32 ==> id == issued - 1 && Below(Lists(), id) && ToldBelow(id)
      modifies `strays
      ensures Valid() && strays == old(strays) + {id}
    {
      hide IdLaw, Below, Session.ListenersValid, Session.Lists;
      StrayKeeps(Lists(), nextChannel, issued, strays, id);
      strays := strays + {id};
    }

    lemma {:induction false} LastInUse(before: seq<Channel>, g: nat, c: Channel)
      requires g < |Lists()| && Lists()[g] == before + [c]
      ensures InUse(Lists(), c.id)
    {
      hide Session.Lists;
      assert Lists()[g][|before|] == c;
    }

    lemma {:induction false} StrayBelow(id: uint32)
      requires Valid() && id in strays
      ensures issued <= TWO_32 ==> id < issued
    {
      hide Session.ListenersValid, Session.Lists, InUse, Below, Distinct;
    }

    /** An id without a channel is in no list. */
    lemma {:induction false} StrayUnlinked(id: uint32)
      requires Valid() && id in strays
      ensures issued <= TWO_32 ==> !InUse(Lists(), id)
    {
      hide Session.ListenersValid, Session.Lists, InUse, Below, Distinct;
    }

    /** Links a channel with the latest id at the end of a listener's queue. */
    method Enqueue(k: nat, c: Channel)
      requires Valid() && k < |listeners| && issued > 0
      requires issued <= TWO_32 ==> c.id == issued - 1 && Below(Lists(), c.id) && c.id !in strays
      requires listeners[k].queueMax == 0 || listeners[k].queueSize < listeners[k].queueMax
      modifies listeners[k]
      ensures Valid() && Lists() == old(Lists())[k + 1 := old(Lists())[k + 1] + [c]]
    {
      hide IdLaw, Below, Session.ListenersValid, Session.Lists;
      SizesAt(k);
      ListAt(k);
      LinkKeeps(Lists(), k + 1, c, nextChannel, issued, strays);
      Requeue(k, listeners[k].queue + [c], listeners[k].queueSize + 1);
    }

    /** Sends a confirmation that was blocked. */
    method Resume(outcome: SendResult) returns (rc: Rc, answer: Option<Answer>)
      requires Valid() && listenState == ListenCreated
      modifies `listenState, `told
      ensures Valid() && told == old(told) + if rc == Ok then [Told(listenId, false)] else []
      ensures rc == match outcome case Sent => Ok case Again => Eagain case Failed => Err
      ensures listenState == if rc == Eagain then ListenCreated else ListenIdle
      ensures answer == if rc == Ok then Some(Confirm(listenId)) else None
    {
      hide IdLaw, Session.ListenersValid, Session.Lists, ToldLaw;
      match outcome {
        case Again => rc, answer := Eagain, None;
        case Failed =>
          listenState := ListenIdle;
          rc, answer := Err, None;
        case Sent =>
          StrayBelow(listenId);
          ToldStep(told, issued, strays, Told(listenId, false));
          told := told + [Told(listenId, false)];
          listenState := ListenIdle;
          rc, answer := Ok, Some(Confirm(listenId));
      }
    }

    lemma {:induction false} SizesAt(k: nat)
      requires ListenersValid() && k < |listeners|
      ensures listeners[k].Valid()
    {
    }

    /** Accepts the oldest connection queued at a listener. */
    method Accept(k: nat) returns (c: Channel?)
      requires Valid() && k < |listeners|
      modifies `channels, listeners[k]
      ensures Valid()
      ensures c == null <==> old(listeners[k].queue) == []
      ensures c == null ==> Lists() == old(Lists())
      ensures c != null ==> c == old(listeners[k].queue)[0]
      ensures c != null ==> Lists() == old(Lists())[k + 1 := old(listeners[k].queue)[1..]][0 := old(channels) + [c]]
    {
      hide IdLaw, Session.ListenersValid, Session.Lists;
      if |listeners[k].queue| > 0 {
        c := listeners[k].queue[0];
        ListAt(k);
        MoveKeeps(Lists(), 0, k + 1, nextChannel, issued, strays);
        SizesAt(k);
        Requeue(k, listeners[k].queue[1..], listeners[k].queueSize - 1);
        Relist(channels + [c]);
      } else {
        c := null;
      }
    }

    // ---- Freeing

    /** Frees an open channel once its close has ended. */
    method Free(c: Channel, closed: Rc) returns (rc: Rc)
      requires Valid() && c in channels && (openState != OpenIdle ==> c != openChannel)
      modifies `channels, `packets
      ensures Valid()
      ensures rc == if closed == Eagain then Eagain else Ok
      ensures channels == if rc == Ok then Without(old(channels), c) else old(channels)
      ensures packets == if rc == Ok then Cleared(old(packets), c.id) else old(packets)
    {
      hide IdLaw, Session.ListenersValid, Session.Lists, Without, Cleared;
      if closed == Eagain {
        return Eagain;
      }
      ClearPackets(c.id);
      WithoutKeeps(channels, c);
      Unlink(c);
      return Ok;
    }

    /** A new listener. */
    method Listen(host: seq<byte>, port: int, queueMax: nat) returns (l: Listener)
      requires Valid()
      modifies `listeners
      ensures Valid() && fresh(l) && listeners == old(listeners) + [l]
      ensures l.host == host && l.port == port && l.queueMax == queueMax && l.queue == []
      ensures Lists() == old(Lists()) + [[]]
    {
      hide IdLaw, QueuesOf;
      l := new Listener(host, port, queueMax);
      ListsKeep(Lists(), 0, nextChannel, issued, strays);
      ghost var lists := Lists();
      listeners := listeners + [l];
      assert Lists() == lists + [[]];
    }

    /**
     Stops listening: the request is sent, then the queued channels are freed one
     by one, then the listener is removed.  `closes` is how their closes end.
     */
    method Cancel(k: nat, outcome: SendResult, closes: seq<Rc>) returns (rc: Rc, ghost freed: nat)
      requires Valid() && k < |listeners|
      modifies `listeners, `packets, listeners[k]
      ensures Valid()
      ensures rc != Eagain ==> listeners == old(listeners)[..k] + old(listeners)[k + 1..]
      ensures rc == Eagain ==> listeners == old(listeners)
      ensures rc == Err <==> rc != Eagain && outcome == Failed && !old(listeners[k].cancelSent)
      // the oldest `freed` channels are gone, with their data; all are, unless a close or the request blocks
      ensures freed <= |old(listeners[k].queue)| && old(listeners[k]).queue == old(listeners[k].queue)[freed..]
      ensures packets == ClearedAll(old(packets), old(listeners[k].queue)[..freed])
      ensures rc != Eagain ==> freed == |old(listeners[k].queue)|
      ensures old(listeners[k].cancelSent) || outcome != Again ==>
                freed == Unblocked(closes, |old(listeners[k].queue)|)
                && (rc == Eagain <==> freed < |old(listeners[k].queue)|)
    {
      hide Session.Valid, Session.Lists, ClearedAll;
      var result := Ok;
      freed := 0;
      NoneCleared(packets, listeners[k].queue);
      if !listeners[k].cancelSent {
        if outcome == Again {
          rc := Eagain;
          return;
        }
        if outcome == Failed {
          result := Err;
        }
        MarkCancelled(k);
      }
      rc, freed := FreeQueue(k, closes);
      if rc == Eagain {
        return;
      }
      Forget(k);
      rc := result;
    }

    /** Frees the channels queued at a listener, the oldest first. */
    method FreeQueue(k: nat, closes: seq<Rc>) returns (rc: Rc, ghost freed: nat)
      requires Valid() && k < |listeners| && listeners[k].cancelSent
      modifies `packets, listeners[k]
      ensures Valid() && listeners[k].cancelSent && rc == if freed < |old(listeners[k].queue)| then Eagain else Ok
      ensures freed == Unblocked(closes, |old(listeners[k].queue)|) <= |old(listeners[k].queue)|
      ensures listeners[k].queue == old(listeners[k].queue)[freed..]
      ensures packets == ClearedAll(old(packets), old(listeners[k].queue)[..freed])
      ensures Lists() == old(Lists())[k + 1 := old(listeners[k].queue)[freed..]]
    {
      hide IdLaw, Session.ListenersValid, Session.Lists, ClearedAll, Cleared, ToldLaw;
      var n := 0;
      ListAt(k);
      NoneCleared(packets, listeners[k].queue);
      while |listeners[k].queue| > 0
        invariant Valid() && listeners[k].cancelSent
        invariant 0 <= n <= |old(listeners[k].queue)| && listeners[k].queue == old(listeners[k].queue)[n..]
        invariant packets == ClearedAll(old(packets), old(listeners[k].queue)[..n])
        invariant Lists() == old(Lists())[k + 1 := old(listeners[k].queue)[n..]]
        invariant forall i :: 0 <= i < n ==> !Blocks(closes, i)
        decreases |old(listeners[k].queue)| - n
      {
        if n < |closes| && closes[n] == Eagain {
          UnblockedIs(closes, |old(listeners[k].queue)|, n);
          return Eagain, n;
        }
        OneCleared(old(packets), old(listeners[k].queue), n);
        DropFirst(k);
        n := n + 1;
      }
      UnblockedIs(closes, |old(listeners[k].queue)|, n);
      return Ok, n;
    }

    /** Frees the oldest channel of a listener's queue. */
    method DropFirst(k: nat)
      requires Valid() && k < |listeners| && listeners[k].cancelSent && |listeners[k].queue| > 0
      modifies `packets, listeners[k]
      ensures packets == Cleared(old(packets), old(listeners[k].queue)[0].id)
      ensures Valid() && listeners[k].cancelSent && listeners[k].queue == old(listeners[k].queue)[1..]
      ensures Lists() == old(Lists())[k + 1 := old(listeners[k].queue)[1..]]
    {
      hide IdLaw, Session.ListenersValid, Session.Lists;
      SizesAt(k);
      ListAt(k);
      ClearPackets(listeners[k].queue[0].id);
      UnlinkKeeps(Lists(), k + 1, 0, nextChannel, issued, strays);
      assert listeners[k].queue[..0] + listeners[k].queue[1..] == listeners[k].queue[1..];
      Requeue(k, listeners[k].queue[1..], listeners[k].queueSize);
    }

    /** Removes a listener. */
    method Forget(k: nat)
      requires Valid() && k < |listeners|
      modifies `listeners
      ensures Valid() && listeners == old(listeners)[..k] + old(listeners)[k + 1..]
      ensures Lists() == old(Lists())[..k + 1] + old(Lists())[k + 2..]
    {
      hide Session.Lists, Session.ListenersValid, IdLaw;
      ListsKeep(Lists(), k + 1, nextChannel, issued, strays);
      Unlist(k);
    }

    method Unlist(k: nat)
      requires ListenersValid() && k < |listeners|
      modifies `listeners
      ensures ListenersValid() && listeners == old(listeners)[..k] + old(listeners)[k + 1..]
      ensures Lists() == old(Lists())[..k + 1] + old(Lists())[k + 2..]
    {
      hide QueuesOf, Listener.Valid;
      ghost var lists := Lists();
      listeners := listeners[..k] + listeners[k + 1..];
      assert Lists() == lists[..k + 1] + lists[k + 2..];
    }

    method MarkCancelled(k: nat)
      requires Valid() && k < |listeners|
      modifies listeners[k]
      ensures Valid() && listeners[k].cancelSent && listeners[k].queue == old(listeners[k].queue)
    {
      hide QueuesOf, IdLaw;
      SizesAt(k);
      listeners[k].cancelSent := true;
    }
  }

  /** One step of a session. */
  datatype Step =
    | OpenStep(outcome: SendResult, reply: OpenReply)
    | ConnectionStep(host: seq<byte>, port: int, outcome: SendResult)
    | PacketStep(p: PacketQueue.Packet)
    | AcceptStep(k: nat)
    | FreeStep(i: nat, closed: Rc)
    | ListenStep(host: seq<byte>, port: int, queueMax: nat)
    | CancelStep(k: nat, outcome: SendResult, closes: seq<Rc>)

  /**
   Every run from a new session, with any sends blocked or failing, keeps the
   ids of all linked channels distinct and below the counter, up to 2^32 ids.
   */
  method Run(script: seq<Step>) returns (s: Session)
    ensures s.Valid() && s.issued <= |script|
    ensures s.issued <= TWO_32 ==> NeverLinked(s)
    ensures s.issued <= TWO_32 ==> Distinct(s.Lists()) && Below(s.Lists(), s.issued)
    ensures s.issued <= TWO_32 ==> s.nextChannel == s.issued % TWO_32
    ensures forall k :: 0 <= k < |s.listeners| && s.listeners[k].queueMax != 0 ==>
              |s.listeners[k].queue| <= s.listeners[k].queueMax
  {
    hide Session.Valid;
    s := new Session();
    for i := 0 to |script|
      invariant fresh(s) && s.Valid() && s.issued <= i
      invariant forall k :: 0 <= k < |s.listeners| ==> fresh(s.listeners[k])
      invariant s.openChannel == null || fresh(s.openChannel)
    {
      match script[i] {
        case OpenStep(outcome, reply) =>
          var c := s.Open(outcome, reply);
        case ConnectionStep(host, port, outcome) =>
          var rc, answer, queued := s.QueueConnection(host, port, outcome);
        case PacketStep(p) => s.Arrive(p);
        case AcceptStep(k) =>
          if k < |s.listeners| {
            var c := s.Accept(k);
          }
        case FreeStep(j, closed) =>
          if j < |s.channels| && (s.openState == OpenIdle || s.channels[j] != s.openChannel) {
            var rc := s.Free(s.channels[j], closed);
          }
        case ListenStep(host, port, queueMax) =>
          var l := s.Listen(host, port, queueMax);
        case CancelStep(k, outcome, closes) =>
          if k < |s.listeners| {
            var rc, freed := s.Cancel(k, outcome, closes);
          }
      }
    }
    Consequences(s);
  }

  /** Opens a channel and frees it again. */
  method OpenAndFree(s: Session)
    requires s.Valid() && s.openState == OpenIdle
    modifies s, s.openChannel
    ensures s.Valid() && s.openState == OpenIdle && s.channels == old(s.channels) && s.listeners == old(s.listeners)
    ensures s.issued == old(s.issued) + 1 && (s.openChannel == null || fresh(s.openChannel))
    ensures s.listenState == old(s.listenState)
  {
    hide Session.Valid, Without;
    ghost var before := s.channels;
    var c := s.Open(Sent, Confirmed(0, 0, 0));
    WithoutAdded(before, c);
    var rc := s.Free(c, Ok);
  }

  /** All ids are given out, the last one to a channel that stays open: the next id is the same again. */
  method WrapReusesOpenId() returns (s: Session, c: Channel, id: uint32)
    ensures s.Valid() && s.channels == [c] && id == c.id && s.issued == TWO_32 + 1
  {
    hide Session.Valid;
    s := new Session();
    for i := 0 to TWO_32 - 1
      invariant fresh(s) && s.Valid() && s.openState == OpenIdle && s.channels == [] && s.issued == i
      invariant s.openChannel == null || fresh(s.openChannel)
    {
      OpenAndFree(s);
    }
    c := s.Open(Sent, Confirmed(0, 0, 0));
    assert s.channels == [c];
    Consequences(s);
    id := s.NextId();
    assert s.channels[0] == c;
  }

  /**
   A connection that waits at a listener while all other ids are given out: the
   next id is its own, though the session list is empty.
   */
  method WrapReusesQueuedId() returns (s: Session, c: Channel, id: uint32)
    ensures s.Valid() && s.channels == [] && |s.listeners| == 1 && s.listeners[0].queue == [c]
    ensures id == c.id && s.issued == TWO_32 + 1
  {
    hide Session.Valid, Session.Lists, IdLaw;
    s := new Session();
    var l := s.Listen([], 0, 0);
    assert s.Lists() == [[], []] && s.listeners[0] == l;
    var rc, answer, queued := s.QueueConnection([], 0, Sent);
    assert s.listeners[0].IsAt([], 0);
    c := queued;
    s.ListAt(0);
    assert s.Lists()[0] == [] && s.Lists()[1] == [c];
    for i := 0 to TWO_32 - 1
      invariant fresh(s) && s.Valid() && s.openState == OpenIdle && s.channels == [] && s.issued == i + 1
      invariant s.listeners == [l] && l.queue == [c] && c.id == 0 && fresh(l)
      invariant s.openChannel == null || fresh(s.openChannel)
    {
      OpenAndFree(s);
    }
    Consequences(s);
    id := s.NextId();
  }

  /**
   No stray is in a list; and of the ids that the peer was told, the strays are
   exactly those whose confirmation did not go out in the call that took the id.
   */
  ghost predicate NeverLinked(s: Session)
    reads s, s.listeners
  {
    && (forall x :: x in s.strays ==> !InUse(s.Lists(), x))
    && (forall k :: 0 <= k < |s.told| ==> (s.told[k].id in s.strays <==> !s.told[k].atOnce))
  }

  /**
   A connection whose confirmation blocks: the next call tells the peer an id that
   no list holds, and no channel is found for it.
   */
  method BlockedConfirmation() returns (s: Session, id: uint32, c: Channel?)
    ensures s.Valid() && s.told == [Told(id, false)] && !InUse(s.Lists(), id) && c == null
  {
    hide Session.Valid, Session.Lists, IdLaw, InUse;
    s := new Session();
    var l := s.Listen([], 0, 0);
    assert s.listeners[0] == l && l.IsAt([], 0);
    var rc, answer, queued := s.QueueConnection([], 0, Again);
    rc, answer, queued := s.QueueConnection([], 0, Sent);
    id := answer.value.id;
    NotInUse(s.Lists(), id);
    c := s.Locate(id);
  }

  lemma {:induction false} NotInUse(lists: seq<seq<Channel>>, id: uint32)
    ensures !InUse(lists, id) <==> forall d :: Linked(lists, d) ==> d.id != id
  {
    if InUse(lists, id) {
      var g, i :| 0 <= g < |lists| && 0 <= i < |lists[g]| && lists[g][i].id == id;
      assert Linked(lists, lists[g][i]);
    }
  }

  lemma {:induction false} Consequences(s: Session)
    requires s.Valid()
    ensures s.issued <= TWO_32 ==> NeverLinked(s)
    ensures s.issued <= TWO_32 ==> Distinct(s.Lists()) && Below(s.Lists(), s.issued)
    ensures s.issued <= TWO_32 ==> s.nextChannel == s.issued % TWO_32
    ensures forall k :: 0 <= k < |s.listeners| && s.listeners[k].queueMax != 0 ==>
              |s.listeners[k].queue| <= s.listeners[k].queueMax
  {
    hide Distinct, Below;
    forall k | 0 <= k < |s.listeners|
      ensures s.listeners[k].Valid()
    {
    }
  }

  method Position(s: seq<Channel>, c: Channel) returns (i: nat)
    requires c in s
    ensures i < |s| && s[i] == c && Without(s, c) == s[..i] + s[i + 1..]
  {
    hide Without;
    i := 0;
    ghost var k :| 0 <= k < |s| && s[k] == c;
    assert s[0..] == s;
    while s[i] != c
      invariant 0 <= i <= k
      invariant Without(s, c) == s[..i] + Without(s[i..], c)
      decreases k - i
    {
      WithoutStep(s, i, c);
      i := i + 1;
    }
    WithoutStep(s, i, c);
  }
}
