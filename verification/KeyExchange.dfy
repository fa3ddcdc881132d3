/**
 A whole key exchange: KEXINIT is sent and received, methods are agreed on, and
 the Diffie-Hellman machine runs.  The session may leave at every send and
 receive and is entered again later; any number of exchanges follow each other.
 */
module KeyExchange {
  import opened Bytes
  import opened Transport
  import opened NameList
  import opened Negotiation
  import opened KexInit
  import KexAgreement
  import opened KeyDerivation
  import opened DiffieHellman

  datatype Phase = Rest | Sending | Waiting | Exchanging

  /** A KEXINIT that was sent and the one that was received with it. */
  datatype Pair = Pair(sent: seq<byte>, received: seq<byte>)

  /**
   An exchange that got as far as the Diffie-Hellman machine: how it began, and
   the KEXINIT packets it sent and received, if it did.
   */
  datatype Round = Round(reexchange: bool, hadMethods: bool, pair: Option<Pair>)

  /**
   What the outside world does during one call.  `crypto` is what each key
   exchange method works with, `past` is the memory behind the server's packet,
   and `stale` is what stands where the code takes a packet that is gone.
   */
  datatype World = World(cookie: seq<byte>, langOut: Option<Name>, langIn: Option<Name>, sendKexInit: SendResult,
                         kexInit: Receive<seq<byte>>, past: nat -> byte, crypto: Name -> Crypto, stale: Pair, env: Env)

  ghost predicate Proper(s: KexAgreement.Session, p: KexAgreement.Preferences, w: World) {
    && |w.cookie| == 16 && Sendable(s.ListsFor(p, w.langOut, w.langIn))
    && (forall n :: w.crypto(n).hash.Valid())
  }

  // ---- Which packets an accepted reply was hashed with

  /** How many exchanges have begun. */
  function Begun(log: seq<Event>): nat {
    if log == [] then 0 else Begun(log[..|log| - 1]) + if log[|log| - 1].Began? then 1 else 0
  }

  /** The exchange of event `i`. */
  predicate InRound(log: seq<Event>, rounds: seq<Round>, i: nat)
    requires i < |log|
  {
    1 <= Begun(log[..i]) <= |rounds|
  }

  /** The reply accepted at `i` was hashed with the packets that its own exchange sent and received. */
  predicate OwnPair(log: seq<Event>, rounds: seq<Round>, i: nat)
    requires i < |log| && log[i].Accepted? && InRound(log, rounds, i)
  {
    rounds[Begun(log[..i]) - 1].pair == Some(Pair(log[i].t.localKexInit, log[i].t.remoteKexInit))
  }

  predicate CoveredAt(log: seq<Event>, rounds: seq<Round>, i: nat)
    requires i < |log|
  {
    log[i].Accepted? ==>
      && InRound(log, rounds, i)
      && (rounds[Begun(log[..i]) - 1].pair.Some? ==> OwnPair(log, rounds, i))
  }

  /** Every accepted reply was hashed with the packets of its own exchange, where there were any. */
  predicate Covered(log: seq<Event>, rounds: seq<Round>) {
    forall i :: 0 <= i < |log| ==> CoveredAt(log, rounds, i)
  }

  lemma {:induction false} BegunSnoc(log: seq<Event>, e: Event)
    ensures Begun(log + [e]) == Begun(log) + if e.Began? then 1 else 0
  {
    assert (log + [e])[..|log|] == log;
  }

  /** Going on within the last exchange keeps the replies covered. */
  lemma {:induction false} CoverOn(before: seq<Event>, after: seq<Event>, rounds: seq<Round>, last: Pair)
    requires Covered(before, rounds) && |rounds| > 0 && rounds[|rounds| - 1].pair in {None, Some(last)}
    requires Begun(before) == |rounds| && Continues(before, after, last.sent, last.received)
    ensures Covered(after, rounds) && Begun(after) == |rounds|
    decreases |after|
  {
    hide Covered, Begun;
    if |before| == |after| {
      assert before == after;
    } else {
      var front, e := after[..|after| - 1], after[|after| - 1];
      assert Continues(before, front, last.sent, last.received);
      CoverOn(before, front, rounds, last);
      assert after == front + [e];
      BegunSnoc(front, e);
      CoverSnoc(front, e, rounds);
    }
  }

  lemma {:induction false} CoverSnoc(log: seq<Event>, e: Event, rounds: seq<Round>)
    requires Covered(log, rounds)
    requires e.Accepted? ==>
               && 1 <= Begun(log) <= |rounds|
               && rounds[Begun(log) - 1].pair in {None, Some(Pair(e.t.localKexInit, e.t.remoteKexInit))}
    ensures Covered(log + [e], rounds)
  {
    hide Begun;
    forall i | 0 <= i < |log + [e]|
      ensures CoveredAt(log + [e], rounds, i)
    {
      if i < |log| {
        assert CoveredAt(log, rounds, i);
        assert (log + [e])[..i] == log[..i];
      } else {
        assert (log + [e])[..i] == log;
      }
    }
  }

  /** A new exchange: one more round, and one more beginning. */
  lemma {:induction false} CoverNext(log: seq<Event>, rounds: seq<Round>, next: Round, guessed: bool)
    requires Covered(log, rounds) && Begun(log) == |rounds|
    ensures Covered(log + [Began(guessed)], rounds + [next]) && Begun(log + [Began(guessed)]) == |rounds| + 1
  {
    hide Begun;
    forall i | 0 <= i < |log|
      ensures CoveredAt(log, rounds + [next], i)
    {
      assert CoveredAt(log, rounds, i);
    }
    BegunSnoc(log, Began(guessed));
    CoverSnoc(log, Began(guessed), rounds + [next]);
  }

  class KeyExchange {
    const session: KexAgreement.Session
    const sender: KexAgreement.KexInitSender
    const machine: Exchange
    var phase: Phase
    var exchangingKeys: bool
    var kexActive: bool
    var oldLocal: Option<seq<byte>>
    var remoteKexInit: Option<seq<byte>>
    /** What the user prefers. */
    ghost const prefs: KexAgreement.Preferences
    /** How the exchange under way began: with the flag, and with methods agreed on. */
    ghost var reexchange: bool
    ghost var hadMethods: bool
    /** The exchanges so far, as far as they reached the machine. */
    ghost var rounds: seq<Round>

    /** Methods are agreed on. */
    predicate HasMethods()
      reads session
    {
      session.kex.Some? && session.hostkey.Some?
    }

    /** What the session sent spells its preferences. */
    ghost predicate WireLaw()
      reads session, sender`wire, sender`pending, sender`created
    {
      && session.Wants() == prefs && sender.Valid()
      && (sender.pending.Some? ==> session.Spells(prefs, sender.pending.value))
      && forall i :: 0 <= i < |sender.wire| ==> session.Spells(prefs, sender.wire[i])
    }

    /**
     An exchange has its own packets exactly when it was asked for as a new one
     or began without methods; they are on the wire, and were agreed on.
     */
    ghost predicate RoundLaw(r: Round)
      reads sender`wire
    {
      && (r.pair.Some? <==> r.reexchange || !r.hadMethods)
      && (r.pair.Some? ==> r.pair.value.sent in sender.wire && session.AgreesOn(prefs, r.pair.value.received))
    }

    /** Between exchanges no packet is stored; during one, those that went over the wire are. */
    ghost predicate StoreLaw()
      reads `phase, `oldLocal, `remoteKexInit, `rounds, `reexchange, `hadMethods, session, sender, machine
    {
      && oldLocal == None && (sender.pending.Some? ==> phase == Sending)
      && (phase in {Rest, Sending} ==> sender.localKexInit == None && remoteKexInit == None)
      && (phase == Waiting ==> LastSent() && remoteKexInit == None)
      && (phase in {Sending, Waiting} ==> !HasMethods() && (reexchange || !hadMethods))
      && (phase == Exchanging ==> HasMethods() && |rounds| > 0 && Stored(rounds[|rounds| - 1].pair))
    }

    /** The packet stored for the exchange hash is the last one on the wire. */
    ghost predicate LastSent()
      reads sender
    {
      |sender.wire| > 0 && sender.localKexInit == Some(sender.wire[|sender.wire| - 1])
    }

    /** The stored packets are those of the exchange, and the machine has them. */
    ghost predicate Stored(pair: Option<Pair>)
      reads `remoteKexInit, sender, machine
    {
      match pair
      case None => sender.localKexInit == None && remoteKexInit == None
      case Some(p) => sender.localKexInit == Some(p.sent) && remoteKexInit == Some(p.received)
                      && p == Pair(machine.localKexInit, machine.remoteKexInit)
    }

    ghost predicate RoundsLaw()
      reads `rounds, sender`wire, machine
    {
      && Begun(machine.log) == |rounds| && Covered(machine.log, rounds)
      && forall k :: 0 <= k < |rounds| ==> RoundLaw(rounds[k])
    }

    ghost predicate Valid()
      reads `phase, `exchangingKeys, `oldLocal, `remoteKexInit, `rounds, `reexchange, `hadMethods, session, sender,
              machine
    {
      && session.GoodTables() && machine.Valid()
      && exchangingKeys == (phase != Rest) && (phase == Exchanging) == (machine.state != Idle)
      && WireLaw() && RoundsLaw() && StoreLaw()
    }

    constructor (session: KexAgreement.Session, sender: KexAgreement.KexInitSender, machine: Exchange)
      requires session.GoodTables() && machine.Valid() && machine.log == [] && machine.state == Idle
      requires sender.Valid() && sender.pending.None? && sender.wire == [] && sender.localKexInit == None
      ensures Valid() && this.session == session && this.sender == sender && this.machine == machine
      ensures phase == Rest && rounds == [] && prefs == session.Wants()
    {
      this.session, this.sender, this.machine := session, sender, machine;
      prefs := session.Wants();
      phase, exchangingKeys, kexActive, oldLocal, remoteKexInit := Rest, false, false, None, None;
      rounds, reexchange, hadMethods := [], false, false;
    }

    /** What a call may add: one round, with the packets sent last and received in this call, if it has any. */
    ghost predicate NextRound(before: seq<Round>, w: World)
      reads `rounds, `reexchange, `hadMethods, sender
    {
      || rounds == before
      || (exists pair :: rounds == before + [Round(reexchange, hadMethods, pair)] && ThisPair(pair, w))
    }

    ghost predicate ThisPair(pair: Option<Pair>, w: World)
      reads sender
    {
      pair.Some? ==>
        w.kexInit.Got? && |sender.wire| > 0 && pair.value == Pair(sender.wire[|sender.wire| - 1], w.kexInit.value)
    }

    /** Nothing goes wrong in the machine, whatever method is used. */
    ghost predicate Good(w: World) {
      && w.env.sendInit == Sent && w.env.burn.Got? && w.env.reply.Got? && w.env.hostkeyOk
      && w.env.sendNewKeys == Sent && w.env.newKeys.Got? && w.env.initOk
      && forall n, h :: w.crypto(n).verify(w.env.reply.value.hostkey, w.env.reply.value.sig, h)
    }

    /** Nothing fails in the machine, though it may block. */
    ghost predicate Smooth(c: Crypto, w: World) {
      && w.env.sendInit != Failed && !w.env.burn.Lost? && !w.env.reply.Lost? && w.env.sendNewKeys != Failed
      && !w.env.newKeys.Lost? && w.env.initOk
      && (w.env.reply.Got? ==>
            && w.env.hostkeyOk && (forall h :: c.verify(w.env.reply.value.hostkey, w.env.reply.value.sig, h))
            && forall n, h :: w.crypto(n).verify(w.env.reply.value.hostkey, w.env.reply.value.sig, h))
    }

    /** Nothing fails in the whole exchange, though it may block. */
    ghost predicate AllSmooth(c: Crypto, w: World) {
      w.sendKexInit != Failed && !w.kexInit.Lost? && (w.kexInit.Got? ==> Agreeable(w)) && Smooth(c, w)
    }

    /** The server's KEXINIT is there, and all its lists have a choice. */
    ghost predicate Agreeable(w: World) {
      w.kexInit.Got? && session.AgreesOn(prefs, w.kexInit.value)
    }

    /** A call that blocks nowhere ends well, or with the refusal of a bad signature. */
    ghost predicate Straight(w: World, rc: Rc) {
      (Good(w) ==> rc == Ok) && (BadSignature(w) ==> rc == Err)
    }

    /** The server replies with a signature that does not verify. */
    ghost predicate BadSignature(w: World) {
      && w.env.sendInit == Sent && w.env.burn.Got? && w.env.reply.Got?
      && forall n, h :: !w.crypto(n).verify(w.env.reply.value.hostkey, w.env.reply.value.sig, h)
    }

    /**
     One call.  Without the flag, an exchange that finds methods agreed on skips
     KEXINIT and goes straight to the machine.
     */
    method Call(reexchange: bool, w: World) returns (rc: Rc)
      requires Valid() && Proper(session, prefs, w)
      modifies this, session, sender, machine
      ensures Valid() && !kexActive
      ensures rc == Eagain <==> phase != Rest
      ensures rc == Ok ==> machine.newkeys && HasMethods() && machine.JustInstalled()
      ensures old(machine.sessionId).Some? ==> machine.sessionId == old(machine.sessionId)
      ensures old(sender.wire) <= sender.wire
      ensures this.reexchange == if old(phase) == Rest then reexchange else old(this.reexchange)
      ensures hadMethods == if old(phase) == Rest then old(HasMethods()) else old(hadMethods)
      ensures NextRound(old(rounds), w)
      ensures old(phase) == Rest && !reexchange && old(HasMethods()) ==>
                |rounds| == |old(rounds)| + 1 && HasMethods() && (Good(w) ==> rc == Ok)
      ensures old(phase) == Rest && w.sendKexInit == Sent && Agreeable(w) ==>
                HasMethods() && |rounds| == |old(rounds)| + 1 && Straight(w, rc)
      ensures AllSmooth(old(machine.c), w) ==> rc != Err
    {
      hide KeyExchange.Valid, KeyExchange.Ready, KeyExchange.Good, KeyExchange.Smooth, KeyExchange.BadSignature,
           Sendable, Readable,
           KexAgreement.Session.AgreesOn, KexAgreement.Session.ListsFor, Exchange.JustInstalled, KeyExchange.NextRound;
      kexActive := true;
      if phase == Rest {
        Begin(reexchange);
      }
      if phase == Exchanging {
        UnderWay();
        rc := Proceed(w);
      } else {
        rc := Negotiate(w);
      }
      kexActive := false;
    }

    /** KEXINIT out, KEXINIT in, and on to the machine. */
    method Negotiate(w: World) returns (rc: Rc)
      requires Valid() && phase in {Sending, Waiting} && Proper(session, prefs, w)
      modifies this, session, sender, machine
      ensures Valid() && reexchange == old(reexchange) && hadMethods == old(hadMethods)
      ensures rc == Eagain <==> phase != Rest
      ensures rc == Ok ==> machine.newkeys && HasMethods() && machine.JustInstalled()
      ensures old(machine.sessionId).Some? ==> machine.sessionId == old(machine.sessionId)
      ensures old(sender.wire) <= sender.wire && NextRound(old(rounds), w)
      ensures w.sendKexInit == Sent && Agreeable(w) ==>
                HasMethods() && |rounds| == |old(rounds)| + 1 && Straight(w, rc)
      ensures AllSmooth(old(machine.c), w) ==> rc != Err
    {
      hide KeyExchange.Valid, KeyExchange.Ready, KeyExchange.Good, KeyExchange.Smooth, KeyExchange.BadSignature,
           Sendable, Readable,
           KexAgreement.Session.AgreesOn, KexAgreement.Session.ListsFor, Exchange.JustInstalled, KeyExchange.ThisPair;
      rc := Ok;
      if phase == Sending {
        rc := SendKexInit(w);
      }
      if rc == Ok {
        rc := TakeKexInit(w);
      }
    }

    /** The machine begins, or goes on. */
    method Proceed(w: World) returns (rc: Rc)
      requires Ready() && HasMethods() && (machine.state == Idle ==> StoredPair() == None)
      requires forall n :: w.crypto(n).hash.Valid()
      modifies `phase, `exchangingKeys, `remoteKexInit, `rounds, sender`localKexInit, machine
      ensures Valid() && NextRound(old(rounds), w)
      ensures rc == Eagain <==> phase != Rest
      ensures rc == Ok ==> machine.newkeys && machine.JustInstalled()
      ensures old(machine.sessionId).Some? ==> machine.sessionId == old(machine.sessionId)
      ensures old(machine.state) == Idle ==> |rounds| == |old(rounds)| + 1 && Straight(w, rc)
      ensures Smooth(old(machine.c), w) ==> rc != Err
    {
      hide KeyExchange.Valid, KeyExchange.Ready, KeyExchange.Good, KeyExchange.Smooth, KeyExchange.BadSignature,
           Exchange.JustInstalled;
      rc := ExchangeKeys(w);
    }

    /** Starts an exchange; the old packet is kept in case KEXINIT cannot be sent. */
    method Begin(reexchange: bool)
      requires Valid() && phase == Rest
      modifies `exchangingKeys, `oldLocal, `phase, `reexchange, `hadMethods, session`kex, session`hostkey,
                 sender`localKexInit
      ensures this.reexchange == reexchange && hadMethods == old(HasMethods())
      ensures reexchange || !hadMethods ==> Valid() && phase == Sending
      ensures !reexchange && hadMethods ==>
                Ready() && phase == Exchanging && machine.state == Idle && HasMethods() && StoredPair() == None
    {
      hide KeyExchange.RoundsLaw, Exchange.Valid, KexAgreement.Session.Spells, KexAgreement.Session.GoodTables;
      hadMethods := HasMethods();
      this.reexchange := reexchange;
      exchangingKeys := true;
      if reexchange {
        session.kex, session.hostkey := None, None;
      }
      if session.kex.None? || session.hostkey.None? {
        oldLocal := sender.localKexInit;
        sender.localKexInit := None;
        phase := Sending;
      } else {
        phase := Exchanging;
      }
    }

    method SendKexInit(w: World) returns (rc: Rc)
      requires Valid() && phase == Sending && Proper(session, prefs, w)
      modifies `phase, `exchangingKeys, sender
      ensures Valid() && old(sender.wire) <= sender.wire
      ensures rc == match w.sendKexInit case Sent => Ok case Again => Eagain case Failed => Err
      ensures phase == match rc case Ok => Waiting case Eagain => Sending case Err => Rest
    {
      hide Covered, Begun, Packet, Sendable, Exchange.Valid, KexAgreement.Session.Spells, KexAgreement.Session.ListsFor;
      ghost var wire := sender.wire;
      KexAgreement.PeerSeesWanted(session, prefs, w.cookie, w.langOut, w.langIn);
      var sent := sender.Send(w.cookie, session.ListsFor(session.Wants(), w.langOut, w.langIn), w.sendKexInit);
      match sent {
        case Again => rc := Eagain;
        case Failed =>
          sender.localKexInit := oldLocal;
          phase, exchangingKeys := Rest, false;
          rc := Err;
        case Sent =>
          phase := Waiting;
          rc := Ok;
      }
    }

    /** Takes the server's KEXINIT, agrees on methods and goes on with the exchange. */
    method TakeKexInit(w: World) returns (rc: Rc)
      requires Valid() && phase == Waiting && Proper(session, prefs, w)
      modifies this, session, sender, machine
      ensures Valid() && kexActive == old(kexActive) && reexchange == old(reexchange) && hadMethods == old(hadMethods)
      ensures rc == Eagain <==> phase != Rest
      ensures rc == Ok ==> machine.newkeys && HasMethods() && machine.JustInstalled()
      ensures old(machine.sessionId).Some? ==> machine.sessionId == old(machine.sessionId)
      ensures sender.wire == old(sender.wire) && NextRound(old(rounds), w)
      ensures Agreeable(w) ==> HasMethods() && |rounds| == |old(rounds)| + 1 && Straight(w, rc)
      ensures AllSmooth(old(machine.c), w) ==> rc != Err
    {
      hide KeyExchange.Ready, KeyExchange.RoundsLaw, KeyExchange.WireLaw, Exchange.Valid, Readable,
           KexAgreement.Session.AgreesOn, KeyExchange.Good, KeyExchange.Smooth, KeyExchange.BadSignature;
      match w.kexInit {
        case Wait => return Eagain;
        case Lost =>
          sender.localKexInit := oldLocal;
          phase, exchangingKeys := Rest, false;
          return Err;
        case Got(data) =>
          var ok := AgreeOn(data, w.past);
          if !ok {
            return Err;
          }
          rc := ExchangeKeys(w);
      }
    }

    /** The machine may begin, with the packets there are, or is under way. */
    ghost predicate Ready()
      reads `phase, `exchangingKeys, `oldLocal, `remoteKexInit, `rounds, `reexchange, `hadMethods, session, sender,
              machine
    {
      && session.GoodTables() && machine.Valid() && phase == Exchanging && exchangingKeys && HasMethods()
      && WireLaw() && RoundsLaw() && oldLocal == None && sender.pending.None?
      && (machine.state != Idle ==> StoreLaw())
      && (machine.state == Idle ==>
            if reexchange || !hadMethods
            then LastSent() && remoteKexInit.Some? && session.AgreesOn(prefs, remoteKexInit.value)
            else sender.localKexInit == None && remoteKexInit == None)
    }

    lemma {:induction false} UnderWay()
      requires phase == Exchanging && (Valid() || Ready())
      ensures Ready() && HasMethods() && (Valid() ==> machine.state != Idle)
    {
      hide Covered, Begun;
    }

    /** Agrees on methods from the server's packet; if that fails, the exchange is over. */
    method AgreeOn(data: seq<byte>, past: nat -> byte) returns (ok: bool)
      requires Valid() && phase == Waiting
      modifies `phase, `exchangingKeys, `remoteKexInit, session, sender`localKexInit
      ensures ok <==> session.AgreesOn(prefs, data)
      ensures ok ==> Ready() && machine.state == Idle && HasMethods()
      ensures ok ==> remoteKexInit == Some(data) && sender.localKexInit == old(sender.localKexInit)
      ensures !ok ==> Valid() && phase == Rest
    {
      hide Readable, ReadLists, First, Offered, Names, GoodTable, KeyExchange.RoundsLaw, Exchange.Valid,
           KexAgreement.Session.Spells, KexAgreement.Session.AgreesOn;
      remoteKexInit := Some(data);
      ok := session.AgreeMethods(data, past);
      if !ok {
        Finish();
        return;
      }
      phase := Exchanging;
    }

    /** The machine's part; then the packets are not needed any more. */
    method ExchangeKeys(w: World) returns (rc: Rc)
      requires Ready() && forall n :: w.crypto(n).hash.Valid()
      modifies `phase, `exchangingKeys, `remoteKexInit, `rounds, sender`localKexInit, machine
      ensures Valid()
      ensures rc == Eagain <==> phase != Rest
      ensures rc == Ok ==> machine.newkeys && machine.JustInstalled()
      ensures old(machine.sessionId).Some? ==> machine.sessionId == old(machine.sessionId)
      ensures old(machine.state) != Idle ==> rounds == old(rounds)
      ensures old(machine.state) == Idle ==>
                rounds == old(rounds) + [Round(reexchange, hadMethods, old(StoredPair()))]
      ensures old(machine.state) == Idle ==> Straight(w, rc)
      ensures Smooth(old(machine.c), w) ==> rc != Err
    {
      hide KeyExchange.RoundsLaw, KeyExchange.WireLaw, Exchange.Valid, KexAgreement.Session.AgreesOn,
           Exchange.JustInstalled, KexAgreement.Session.GoodTables, KeyExchange.Straight;
      rc := RunMachine(w);
      if rc != Eagain {
        Finish();
      }
    }

    /** Calls the machine, with a new round when it begins. */
    method RunMachine(w: World) returns (rc: Rc)
      requires Ready() && forall n :: w.crypto(n).hash.Valid()
      modifies `rounds, machine
      ensures machine.Valid() && RoundsLaw() && |rounds| > 0 && Stored(rounds[|rounds| - 1].pair)
      ensures rc == Eagain <==> machine.state != Idle
      ensures rc == Ok ==> machine.newkeys && machine.JustInstalled()
      ensures old(machine.sessionId).Some? ==> machine.sessionId == old(machine.sessionId)
      ensures old(machine.state) != Idle ==> rounds == old(rounds)
      ensures old(machine.state) == Idle ==>
                rounds == old(rounds) + [Round(reexchange, hadMethods, old(StoredPair()))] && Straight(w, rc)
      ensures Smooth(old(machine.c), w) ==> rc != Err
    {
      hide Covered, Begun, Continues, Exchange.Valid, KexAgreement.Session.Spells, KexAgreement.Session.AgreesOn,
           Exchange.JustInstalled, KexAgreement.Session.GoodTables;
      ghost var pair := StoredPair();
      ghost var before := machine.log;
      var local := if sender.localKexInit.Some? then sender.localKexInit.value else w.stale.sent;
      var remote := if remoteKexInit.Some? then remoteKexInit.value else w.stale.received;
      if machine.state == Idle {
        CoverNext(machine.log, rounds, Round(reexchange, hadMethods, pair), session.burnOptimistic);
        rounds := rounds + [Round(reexchange, hadMethods, pair)];
        before := before + [Began(session.burnOptimistic)];
      }
      rc := machine.Call(w.env.(crypto := w.crypto(session.kex.value.name), localKexInit := local,
                                remoteKexInit := remote, guessed := session.burnOptimistic));
      CoverOn(before, machine.log, rounds, Pair(machine.localKexInit, machine.remoteKexInit));
    }

    /** The packets that are stored for the exchange hash. */
    ghost function StoredPair(): Option<Pair>
      reads `remoteKexInit, sender
    {
      if sender.localKexInit.Some? && remoteKexInit.Some?
      then Some(Pair(sender.localKexInit.value, remoteKexInit.value)) else None
    }

    /** The end of an exchange, good or bad. */
    method Finish()
      modifies `phase, `exchangingKeys, `remoteKexInit, sender`localKexInit
      ensures phase == Rest && !exchangingKeys && remoteKexInit == None && sender.localKexInit == None
    {
      sender.localKexInit := None;
      remoteKexInit := None;
      phase, exchangingKeys := Rest, false;
    }
  }

  /** An exchange that may have its own packets: asked for as a new one, or begun without methods. */
  predicate Negotiates(r: Round) {
    r.reexchange || !r.hadMethods
  }

  /** The octets that were hashed carry the packets of an exchange in their third and fourth field. */
  predicate Carries(x: seq<byte>, pair: Pair) {
    var fields := FirstFields(x, 5);
    fields.Some? && |fields.value| == 5 && fields.value[2] == pair.sent && fields.value[3] == pair.received
  }

  /**
   Where the keys are switched on, the server signed the hash; and the hash
   covers the packets of that exchange exactly when the exchange negotiated.
   They are then found in the octets that were hashed.
   */
  predicate SwitchedFor(log: seq<Event>, i: nat, rounds: seq<Round>)
    requires i < |log|
  {
    log[i].KeysOn? ==>
      && 3 <= i && log[i - 3].Accepted? && log[i].h == log[i - 3].c.hash.apply(HashInput(log[i - 3].c, log[i - 3].t))
      && log[i - 3].c.verify(log[i - 3].t.hostkey, log[i - 3].t.sig, log[i].h)
      && InRound(log, rounds, i - 3)
      && var r := rounds[Begun(log[..i - 3]) - 1];
         && (OwnPair(log, rounds, i - 3) <==> Negotiates(r))
         && (Negotiates(r) && Fit(log[i - 3].t) ==>
               r.pair.Some? && Carries(HashInput(log[i - 3].c, log[i - 3].t), r.pair.value))
  }

  lemma {:induction false} SwitchedOnFor(log: seq<Event>, rounds: seq<Round>, i: nat)
    requires Sound(log) && Covered(log, rounds) && i < |log|
    requires forall k :: 0 <= k < |rounds| ==> rounds[k].pair.Some? == Negotiates(rounds[k])
    ensures SwitchedFor(log, i, rounds)
  {
    hide HashInput, Begun, FirstFields, Fit;
    if log[i].KeysOn? {
      assert AcceptedAt(log, i - 3);
      assert CoveredAt(log, rounds, i - 3);
      if Fit(log[i - 3].t) {
        HashCovers(log[i - 3].c, log[i - 3].t);
      }
    }
  }

  /** Keys that were switched on for the same octets were switched on for the same packets. */
  lemma {:induction false} SameOctetsSamePair(log: seq<Event>, rounds: seq<Round>, i: nat, j: nat)
    requires i < |log| && j < |log| && log[i].KeysOn? && log[j].KeysOn?
    requires SwitchedFor(log, i, rounds) && SwitchedFor(log, j, rounds)
    requires Fit(log[i - 3].t) && Fit(log[j - 3].t)
    requires HashInput(log[i - 3].c, log[i - 3].t) == HashInput(log[j - 3].c, log[j - 3].t)
    ensures InRound(log, rounds, i - 3) && InRound(log, rounds, j - 3)
    ensures var r, q := rounds[Begun(log[..i - 3]) - 1], rounds[Begun(log[..j - 3]) - 1];
            Negotiates(r) && Negotiates(q) ==> r.pair.Some? && r.pair == q.pair
  {
    hide HashInput, Begun, FirstFields, Fit;
  }

  /** What the packets of an exchange are. */
  ghost predicate Traced(x: KeyExchange, r: Round)
    reads x.sender
  {
    r.pair.Some? ==>
      && r.pair.value.sent in x.sender.wire && x.session.Spells(x.prefs, r.pair.value.sent)
      && x.session.AgreesOn(x.prefs, r.pair.value.received)
  }

  /** The server's packet came in during the script. */
  ghost predicate CameIn(r: Round, script: seq<(bool, World)>) {
    r.pair.Some? ==> exists j :: 0 <= j < |script| && script[j].1.kexInit == Got(r.pair.value.received)
  }

  /**
   Every run of exchanges, blocked or failing anywhere: keys are only ever
   switched on for a hash that the server signed.  It covers the KEXINIT packets
   of the same exchange exactly when that exchange was asked for as a new one or
   began without methods.  They are then one that this side sent, and that spells
   its preferences, and one that came in and has a choice in all eight lists.
   */
  method Run(x: KeyExchange, script: seq<(bool, World)>)
    requires x.Valid() && forall i :: 0 <= i < |script| ==> Proper(x.session, x.prefs, script[i].1)
    modifies x, x.session, x.sender, x.machine
    ensures x.Valid() && old(x.rounds) <= x.rounds
    ensures forall i :: 0 <= i < |x.machine.log| ==> SwitchedFor(x.machine.log, i, x.rounds)
    ensures forall k :: 0 <= k < |x.rounds| ==> Traced(x, x.rounds[k])
    ensures forall k :: |old(x.rounds)| <= k < |x.rounds| ==> CameIn(x.rounds[k], script)
    ensures old(x.machine.sessionId).Some? ==> x.machine.sessionId == old(x.machine.sessionId)
    ensures old(x.phase) == Rest && (forall i :: 0 <= i < |script| ==> script[i].0) ==>
              forall k :: |old(x.rounds)| <= k < |x.rounds| ==> x.rounds[k].reexchange
  {
    hide KeyExchange.Valid, SwitchedFor, Proper, Traced;
    for i := 0 to |script|
      invariant x.Valid() && old(x.rounds) <= x.rounds
      invariant forall k :: |old(x.rounds)| <= k < |x.rounds| ==> CameIn(x.rounds[k], script)
      invariant old(x.machine.sessionId).Some? ==> x.machine.sessionId == old(x.machine.sessionId)
      invariant old(x.phase) == Rest && (forall j :: 0 <= j < i ==> script[j].0) ==>
                  && (x.phase != Rest ==> x.reexchange)
                  && forall k :: |old(x.rounds)| <= k < |x.rounds| ==> x.rounds[k].reexchange
    {
      var rc := x.Call(script[i].0, script[i].1);
    }
    Consequences(x);
  }

  lemma {:induction false} Consequences(x: KeyExchange)
    requires x.Valid()
    ensures forall i :: 0 <= i < |x.machine.log| ==> SwitchedFor(x.machine.log, i, x.rounds)
    ensures forall k :: 0 <= k < |x.rounds| ==> Traced(x, x.rounds[k])
  {
    hide Sound, Covered, Begun, SwitchedFor, KexAgreement.Session.Spells, KexAgreement.Session.AgreesOn;
    forall k | 0 <= k < |x.rounds|
      ensures Traced(x, x.rounds[k]) && x.rounds[k].pair.Some? == Negotiates(x.rounds[k])
    {
      assert x.RoundLaw(x.rounds[k]);
    }
    forall i | 0 <= i < |x.machine.log|
      ensures SwitchedFor(x.machine.log, i, x.rounds)
    {
      SwitchedOnFor(x.machine.log, x.rounds, i);
    }
  }

  // ---- A run in which the hash covers no packet of its exchange

  /** No exchange begins in the last events, from the accepted reply to the installed keys. */
  lemma {:induction false} BegunAtReply(log: seq<Event>)
    requires Sound(log) && |log| >= 2 && log[|log| - 2].KeysOn? && log[|log| - 1].Installed?
    ensures |log| >= 5 && log[|log| - 5].Accepted? && Begun(log[..|log| - 5]) == Begun(log)
  {
    hide Digest, OneSecret;
    var n := |log|;
    assert log[n - 2].KeysOn? && AcceptedAt(log, n - 5);
    BegunStep(log, n - 5);
    BegunStep(log, n - 4);
    BegunStep(log, n - 3);
    BegunStep(log, n - 2);
    BegunStep(log, n - 1);
    assert log[..n] == log;
  }

  lemma {:induction false} BegunStep(log: seq<Event>, i: nat)
    requires i < |log| && !log[i].Began?
    ensures Begun(log[..i + 1]) == Begun(log[..i])
  {
    assert log[..i + 1] == log[..i] + [log[i]];
    BegunSnoc(log[..i], log[i]);
  }

  /** The last exchange switched the keys on, and skipped KEXINIT. */
  ghost predicate LastSkipped(x: KeyExchange)
    reads x, x.machine
  {
    var log := x.machine.log;
    && |log| >= 5 && log[|log| - 2].KeysOn? && log[|log| - 5].Accepted? && InRound(log, x.rounds, |log| - 5)
    && !OwnPair(log, x.rounds, |log| - 5)
  }

  lemma {:induction false} SkippedLast(x: KeyExchange)
    requires x.Valid() && x.machine.JustInstalled() && |x.rounds| > 0 && x.rounds[|x.rounds| - 1].pair == None
    ensures LastSkipped(x)
  {
    hide Begun, Covered, Sound, Forward, FirstOn, TailOf, AcceptedAt, Digest, KeyExchange.StoreLaw, KeyExchange.WireLaw;
    BegunAtReply(x.machine.log);
  }

  const TINY_TABLE := [Method([97], false, false)]

  /** A session with one method of each kind can send its lists and agrees with itself. */
  lemma {:induction false} TinySession(s: KexAgreement.Session, cookie: seq<byte>)
    requires s.kexTable == s.hostkeyTable == s.cryptTable == s.macTable == s.compTable == TINY_TABLE && |cookie| == 16
    ensures s.GoodTables() && Sendable(s.ListsFor(KexAgreement.NO_PREFERENCES, None, None))
    ensures s.AgreesOn(KexAgreement.NO_PREFERENCES, Packet(cookie, s.ListsFor(KexAgreement.NO_PREFERENCES, None, None)))
    ensures Readable(Packet(cookie, s.ListsFor(KexAgreement.NO_PREFERENCES, None, None)), 17, 8)
  {
    hide Packet, Readable, ReadLists;
    var names := TableNames(TINY_TABLE);
    assert names == [[97]] && TableNames([]) == [];
    assert GoodName(names[0]);
    assert Join(names) == [97];
    assert Meets(HostKey(false, false), TINY_TABLE[0]);
    KexAgreement.OwnPacketAgrees(s, cookie);
  }

  /** A method whose signatures verify exactly when they are the octet 1. */
  function ToyCrypto(n: Name): (c: Crypto)
    ensures c.hash.Valid() && forall k, sig, h :: c.verify(k, sig, h) == (sig == [1])
  {
    Crypto(Hash(_ => [0], 1), _ => [], (_, _) => [], (_, sig, _) => sig == [1], 30, [], [])
  }

  /** A world in which only the signature may be bad. */
  function ToyWorld(kexInit: seq<byte>, sig: seq<byte>): World {
    World(seq(16, _ => 0), None, None, Sent, Got(kexInit), _ => 0, ToyCrypto, Pair([], []),
          Env(ToyCrypto([]), 0, [], [], false, Sent, Got(()), Got(Reply([], [], sig)), true, Sent, Got(()),
              KeySizes(0, 0, 0, 0, 0, 0), true))
  }

  /**
   A handshake whose signature is refused, and a second one: the second finds the
   methods agreed on, skips KEXINIT, and switches the keys on for a hash that
   covers no KEXINIT of its own.
   */
  method SecondHandshake() returns (x: KeyExchange)
    ensures x.Valid() && x.machine.newkeys && LastSkipped(x)
  {
    hide KeyExchange.Valid, Packet, Readable, Sendable, KexAgreement.Session.ListsFor, KexAgreement.Session.AgreesOn,
         KexAgreement.Session.GoodTables, LastSkipped, Exchange.Valid;
    var cookie := seq(16, _ => 0);
    var session := new KexAgreement.Session(TINY_TABLE, TINY_TABLE, TINY_TABLE, TINY_TABLE, TINY_TABLE);
    var sender := new KexAgreement.KexInitSender();
    var machine := new Exchange([], []);
    TinySession(session, cookie);
    x := new KeyExchange(session, sender, machine);
    var data := Packet(cookie, session.ListsFor(KexAgreement.NO_PREFERENCES, None, None));
    var rc := x.Call(false, ToyWorld(data, [0]));
    assert rc == Err && x.HasMethods();
    rc := x.Call(false, ToyWorld(data, [1]));
    assert rc == Ok;
    LastRoundBare(x);
    SkippedLast(x);
  }

  lemma {:induction false} LastRoundBare(x: KeyExchange)
    requires x.Valid() && |x.rounds| > 0 && !Negotiates(x.rounds[|x.rounds| - 1])
    ensures x.rounds[|x.rounds| - 1].pair == None
  {
    hide Begun, Covered, Exchange.Valid;
    assert x.RoundLaw(x.rounds[|x.rounds| - 1]);
  }
}
