/**
 The client's side of the Diffie-Hellman key exchange (sections 7.3 and 8 of
 RFC 4253) as a machine that can be left at every send and every receive and
 is entered again later.  Both hash sizes of the library run this machine.
 */
module DiffieHellman {
  import opened Bytes
  import opened KeyDerivation
  import opened Transport
  import KexInit

  /** A string field; the length is stored in 32 bits. */
  function Field(s: seq<byte>): seq<byte> {
    U32(|s| % TWO_32) + s
  }

  /** What the crypto library and the group supply. */
  datatype Crypto = Crypto(
    hash: Hash,
    public: nat -> seq<byte>,                              // x to the octets of e = g^x mod p
    shared: (nat, seq<byte>) -> seq<byte>,                 // x and f to the octets of K = f^x mod p
    verify: (seq<byte>, seq<byte>, seq<byte>) -> bool,     // host key, signature, hash
    packetInit: byte,
    gexFields: seq<byte>,                                  // group sizes, for group exchange only
    midhash: seq<byte>)

  /** Everything that goes into the exchange hash, and the signature on it. */
  datatype Transcript = Transcript(clientBanner: seq<byte>, serverBanner: seq<byte>,
                                   localKexInit: seq<byte>, remoteKexInit: seq<byte>,
                                   hostkey: seq<byte>, e: seq<byte>, f: seq<byte>, k: seq<byte>, sig: seq<byte>)

  function HashInput(c: Crypto, t: Transcript): seq<byte> {
    Field(t.clientBanner) + Field(t.serverBanner) + Field(t.localKexInit) + Field(t.remoteKexInit)
    + Field(t.hostkey) + c.gexFields + c.midhash + t.e + Field(t.f) + t.k
  }

  function Digest(c: Crypto, t: Transcript): seq<byte> {
    c.hash.apply(HashInput(c, t))
  }

  // ---- What the hash covers

  /** The fields whose length fits its 32-bit field. */
  predicate Fit(t: Transcript) {
    && |t.clientBanner| < TWO_32 && |t.serverBanner| < TWO_32 && |t.localKexInit| < TWO_32
    && |t.remoteKexInit| < TWO_32 && |t.hostkey| < TWO_32 && |t.f| < TWO_32
  }

  /** The `string` fields that a hash input starts with, as a parser finds them. */
  function FirstFields(x: seq<byte>, count: nat): Option<seq<seq<byte>>> {
    if KexInit.Readable(x, 0, count) && KexInit.ReadLists(x, 0, count).Some?
    then Some(KexInit.ReadLists(x, 0, count).value.0) else None
  }

  /** Fields that stand one after the other are found in order, whatever follows. */
  lemma {:induction false} FieldsFound(texts: seq<seq<byte>>, lists: seq<KexInit.ListSource>, x: seq<byte>,
                                       post: seq<byte>)
    requires |texts| == |lists|
    requires forall i :: 0 <= i < |texts| ==> lists[i] == KexInit.Prefs(texts[i]) && |texts[i]| < TWO_32
    requires x == KexInit.Fields(lists) + post
    ensures FirstFields(x, |texts|) == Some(texts)
  {
    hide KexInit.Readable, KexInit.ReadLists, KexInit.Fields;
    assert [] + KexInit.Fields(lists) + post == x;
    KexInit.ReadListsBack([], lists, post);
    TextsOf(texts, lists);
  }

  lemma {:induction false} TextsOf(texts: seq<seq<byte>>, lists: seq<KexInit.ListSource>)
    requires |texts| == |lists| && forall i :: 0 <= i < |texts| ==> lists[i] == KexInit.Prefs(texts[i])
    ensures KexInit.Texts(lists) == texts
  {
    if texts != [] {
      TextsOf(texts[1..], lists[1..]);
      assert texts == [texts[0]] + texts[1..];
    }
  }

  lemma {:induction false} FieldsCons(text: seq<byte>, lists: seq<KexInit.ListSource>)
    requires |text| < TWO_32 && forall i :: 0 <= i < |lists| ==> |KexInit.ListText(lists[i])| < TWO_32
    ensures forall i :: 0 <= i < |lists| + 1 ==> |KexInit.ListText(([KexInit.Prefs(text)] + lists)[i])| < TWO_32
    ensures KexInit.Fields([KexInit.Prefs(text)] + lists) == Field(text) + KexInit.Fields(lists)
  {
    hide U32;
    assert ([KexInit.Prefs(text)] + lists)[1..] == lists;
  }

  /** The fields of several texts. */
  function Joined(texts: seq<seq<byte>>): seq<byte> {
    if texts == [] then [] else Field(texts[0]) + Joined(texts[1..])
  }

  lemma {:induction false} JoinedFound(texts: seq<seq<byte>>, post: seq<byte>)
    requires forall i :: 0 <= i < |texts| ==> |texts[i]| < TWO_32
    ensures FirstFields(Joined(texts) + post, |texts|) == Some(texts)
  {
    hide FirstFields, KexInit.Fields;
    var lists := seq(|texts|, i requires 0 <= i < |texts| => KexInit.Prefs(texts[i]));
    JoinedFields(texts, lists);
    FieldsFound(texts, lists, Joined(texts) + post, post);
  }

  lemma {:induction false} JoinedFields(texts: seq<seq<byte>>, lists: seq<KexInit.ListSource>)
    requires |texts| == |lists|
    requires forall i :: 0 <= i < |texts| ==> lists[i] == KexInit.Prefs(texts[i]) && |texts[i]| < TWO_32
    ensures KexInit.Fields(lists) == Joined(texts)
  {
    if texts != [] {
      JoinedFields(texts[1..], lists[1..]);
      FieldsCons(texts[0], lists[1..]);
      assert lists == [KexInit.Prefs(texts[0])] + lists[1..];
    }
  }

  /**
   The octets that are hashed begin with banners, KEXINIT packets and host key, in
   the order of section 8 of RFC 4253.
   */
  lemma {:induction false} HashCovers(c: Crypto, t: Transcript)
    requires Fit(t)
    ensures FirstFields(HashInput(c, t), 5)
            == Some([t.clientBanner, t.serverBanner, t.localKexInit, t.remoteKexInit, t.hostkey])
  {
    hide FirstFields, Field;
    var texts := [t.clientBanner, t.serverBanner, t.localKexInit, t.remoteKexInit, t.hostkey];
    var post := c.gexFields + c.midhash + t.e + Field(t.f) + t.k;
    JoinedFive(texts);
    assert HashInput(c, t) == Joined(texts) + post;
    JoinedFound(texts, post);
  }

  lemma {:induction false} JoinedFive(s: seq<seq<byte>>)
    requires |s| == 5
    ensures Joined(s) == Field(s[0]) + Field(s[1]) + Field(s[2]) + Field(s[3]) + Field(s[4])
  {
    hide Field;
    JoinedStep(s, 0);
    JoinedStep(s, 1);
    JoinedStep(s, 2);
    JoinedStep(s, 3);
    JoinedStep(s, 4);
    assert s[0..] == s && s[5..] == [];
    assert Joined([]) == [];
  }

  lemma {:induction false} JoinedStep(s: seq<seq<byte>>, i: nat)
    requires i < |s|
    ensures Joined(s[i..]) == Field(s[i]) + Joined(s[i + 1..])
  {
    assert s[i..][1..] == s[i + 1..];
  }

  /** Without a group exchange, the whole of it is the eight fields of section 8, with e,
      f and K behind the host key. */
  lemma {:induction false} HashIsEight(c: Crypto, t: Transcript, e: seq<byte>, k: seq<byte>)
    requires Fit(t) && c.gexFields == [] && c.midhash == [] && |e| < TWO_32 && |k| < TWO_32
    requires t.e == Field(e) && t.k == Field(k)
    ensures FirstFields(HashInput(c, t), 8)
            == Some([t.clientBanner, t.serverBanner, t.localKexInit, t.remoteKexInit, t.hostkey, e, t.f, k])
    ensures HashInput(c, t) == Joined([t.clientBanner, t.serverBanner, t.localKexInit, t.remoteKexInit, t.hostkey, e,
                                       t.f, k])
  {
    hide FirstFields, Field;
    var five := [t.clientBanner, t.serverBanner, t.localKexInit, t.remoteKexInit, t.hostkey];
    var texts := five + [e, t.f, k];
    JoinedFive(five);
    JoinedSplit(five, [e, t.f, k]);
    JoinedThree(e, t.f, k);
    assert texts == [t.clientBanner, t.serverBanner, t.localKexInit, t.remoteKexInit, t.hostkey, e, t.f, k];
    assert HashInput(c, t) == Joined(texts);
    JoinedFound(texts, []);
    assert Joined(texts) + [] == Joined(texts);
  }

  lemma {:induction false} JoinedThree(a: seq<byte>, b: seq<byte>, c: seq<byte>)
    ensures Joined([a, b, c]) == Field(a) + Field(b) + Field(c)
  {
    hide Field;
    var s := [a, b, c];
    JoinedStep(s, 0);
    JoinedStep(s, 1);
    JoinedStep(s, 2);
    assert s[0..] == s && s[3..] == [];
    assert Joined([]) == [];
  }

  lemma {:induction false} JoinedSplit(a: seq<seq<byte>>, b: seq<seq<byte>>)
    ensures Joined(a + b) == Joined(a) + Joined(b)
  {
    hide Field;
    if a == [] {
      assert a + b == b;
    } else {
      assert (a + b)[1..] == a[1..] + b;
      JoinedSplit(a[1..], b);
    }
  }

  /** Equal hash inputs have equal banners, KEXINIT packets and host keys. */
  lemma {:induction false} HashInputInjective(c: Crypto, t: Transcript, d: Crypto, u: Transcript)
    requires Fit(t) && Fit(u) && HashInput(c, t) == HashInput(d, u)
    ensures t.clientBanner == u.clientBanner && t.serverBanner == u.serverBanner && t.hostkey == u.hostkey
    ensures t.localKexInit == u.localKexInit && t.remoteKexInit == u.remoteKexInit
  {
    hide FirstFields, HashInput;
    HashCovers(c, t);
    HashCovers(d, u);
    var a := [t.clientBanner, t.serverBanner, t.localKexInit, t.remoteKexInit, t.hostkey];
    var b := [u.clientBanner, u.serverBanner, u.localKexInit, u.remoteKexInit, u.hostkey];
    assert a == b;
    assert a[0] == b[0] && a[1] == b[1] && a[2] == b[2] && a[3] == b[3] && a[4] == b[4];
  }

  /** The server's reply. */
  datatype Reply = Reply(hostkey: seq<byte>, f: seq<byte>, sig: seq<byte>)

  /** Result of waiting for a packet. */
  datatype Receive<T> = Got(value: T) | Wait | Lost

  datatype State = Idle | Created | SentInit | Sent1 | Sent2 | Sent3

  /** The keys of both directions. */
  datatype Keys = Keys(ivOut: seq<byte>, ivIn: seq<byte>, encOut: seq<byte>, encIn: seq<byte>,
                       macOut: seq<byte>, macIn: seq<byte>)

  datatype KeySizes = KeySizes(ivOut: nat, ivIn: nat, encOut: nat, encIn: nat, macOut: nat, macIn: nat)

  /** What the outside world does during one call. */
  datatype Env = Env(
    crypto: Crypto, x: nat, localKexInit: seq<byte>, remoteKexInit: seq<byte>, guessed: bool,   // at the beginning
    sendInit: SendResult, burn: Receive<()>, reply: Receive<Reply>, hostkeyOk: bool,
    sendNewKeys: SendResult, newKeys: Receive<()>, sizes: KeySizes, initOk: bool)

  /** What happened, in order. */
  datatype Event =
    | Began(guessed: bool)
    | InitSent(packet: seq<byte>)
    | Burnt
    | Accepted(c: Crypto, t: Transcript, x: nat)
    | NewKeysSent
    | NewKeysReceived
    | KeysOn(h: seq<byte>)
    | Installed(keys: Keys)

  /** Position of a step within an exchange. */
  function Rank(e: Event): nat {
    match e
    case Began(_) => 0
    case InitSent(_) => 1
    case Burnt => 2
    case Accepted(_, _, _) => 3
    case NewKeysSent => 4
    case NewKeysReceived => 5
    case KeysOn(_) => 6
    case Installed(_) => 7
  }

  /** Within an exchange every step comes later than the one before: none is repeated. */
  predicate Forward(log: seq<Event>) {
    forall i :: 0 < i < |log| ==> log[i].Began? || Rank(log[i - 1]) < Rank(log[i])
  }

  /** What was sent and the shared secret come from the same private number. */
  predicate OneSecret(c: Crypto, t: Transcript, x: nat) {
    t.e == Field(c.public(x)) && t.k == Field(c.shared(x, t.f))
  }

  /**
   A server packet was accepted at `i`: its signature on this exchange's hash is
   good, and the hash covers what was sent and the secret that belongs to it.  A
   packet was dropped before exactly when the server had guessed wrongly.
   */
  ghost predicate AcceptedAt(log: seq<Event>, i: int) {
    && 1 <= i < |log| && log[i].Accepted? && log[i].c.verify(log[i].t.hostkey, log[i].t.sig, Digest(log[i].c, log[i].t))
    && OneSecret(log[i].c, log[i].t, log[i].x)
    && var j := if log[i - 1].Burnt? then i - 2 else i - 1;
       && 1 <= j && log[j].InitSent? && log[j].packet == [log[i].c.packetInit] + log[i].t.e
       && log[j - 1] == Began(log[i - 1].Burnt?)
  }

  /**
   Wherever the keys are switched on, NEWKEYS was received just before, was
   sent before that, and the server's signature was verified before that.
   */
  ghost predicate Sound(log: seq<Event>) {
    forall i :: 0 <= i < |log| && log[i].KeysOn? ==>
      && 3 <= i && log[i - 1].NewKeysReceived? && log[i - 2].NewKeysSent?
      && AcceptedAt(log, i - 3) && log[i].h == Digest(log[i - 3].c, log[i - 3].t)
  }

  /** The run went on within an exchange, and a reply it accepted was hashed with these KEXINIT packets. */
  ghost predicate Continues(before: seq<Event>, after: seq<Event>, local: seq<byte>, remote: seq<byte>) {
    && before <= after
    && forall i :: |before| <= i < |after| ==>
         !after[i].Began? && (after[i].Accepted? ==>
                              after[i].t.localKexInit == local && after[i].t.remoteKexInit == remote)
  }

  lemma {:induction false} ContinuesOn(a: seq<Event>, b: seq<Event>, c: seq<Event>, local: seq<byte>, remote: seq<byte>)
    requires Continues(a, b, local, remote) && Continues(b, c, local, remote)
    ensures Continues(a, c, local, remote)
  {
  }

  lemma {:induction false} NothingHappened(log: seq<Event>, local: seq<byte>, remote: seq<byte>)
    ensures Continues(log, log, local, remote)
  {
  }

  /** The exchange hash with which keys were first switched on. */
  function FirstOn(log: seq<Event>): Option<seq<byte>> {
    if log == [] then None else
    var before := FirstOn(log[..|log| - 1]);
    var last := log[|log| - 1];
    if before.None? && last.KeysOn? then Some(last.h) else before
  }

  lemma {:induction false} FirstOnStep(log: seq<Event>, e: Event)
    ensures FirstOn(log + [e]) == if FirstOn(log).None? && e.KeysOn? then Some(e.h) else FirstOn(log)
  {
    assert (log + [e])[..|log|] == log;
  }

  /** What the machine's state says about the last events. */
  ghost predicate TailOf(c: Crypto, log: seq<Event>, state: State, ePacket: seq<byte>, t: Transcript, burn: bool) {
    var n := |log|;
    match state
    case Idle => true
    case Created => n >= 1 && log[n - 1] == Began(burn)
    case SentInit => n >= 2 && log[n - 1] == InitSent(ePacket) && log[n - 2] == Began(burn)
    case Sent1 =>
      || (n >= 2 && log[n - 1] == InitSent(ePacket) && log[n - 2] == Began(false))
      || (n >= 3 && log[n - 1].Burnt? && log[n - 2] == InitSent(ePacket) && log[n - 3] == Began(true))
    case Sent2 => AcceptedAt(log, n - 1) && log[n - 1].c == c && log[n - 1].t == t
    case Sent3 => n >= 2 && log[n - 1].NewKeysSent? && AcceptedAt(log, n - 2) && log[n - 2].c == c && log[n - 2].t == t
  }

  /** A good signature on a reply to what was sent last makes an accepted packet. */
  lemma {:induction false} AcceptNow(c: Crypto, log: seq<Event>, ePacket: seq<byte>, t: Transcript, x: nat)
    requires TailOf(c, log, Sent1, ePacket, t, false) || TailOf(c, log, Sent1, ePacket, t, true)
    requires ePacket == [c.packetInit] + t.e && OneSecret(c, t, x)
    requires c.verify(t.hostkey, t.sig, Digest(c, t))
    ensures |log| > 0 && Rank(log[|log| - 1]) < Rank(Accepted(c, t, x))
    ensures TailOf(c, log + [Accepted(c, t, x)], Sent2, ePacket, t, false)
    ensures TailOf(c, log + [Accepted(c, t, x)], Sent2, ePacket, t, true)
  {
    hide Digest, OneSecret;
  }

  lemma {:induction false} AcceptedStays(log: seq<Event>, e: Event, i: int)
    requires AcceptedAt(log, i)
    ensures AcceptedAt(log + [e], i) && (log + [e])[i] == log[i] && log[i].Accepted?
  {
    hide Digest;
  }

  lemma {:induction false} ForwardStep(log: seq<Event>, e: Event)
    requires Forward(log) && (e.Began? || (|log| > 0 && Rank(log[|log| - 1]) < Rank(e)))
    ensures Forward(log + [e])
  {
    hide Rank;
  }

  /** The last events are those that must precede switching the keys on. */
  ghost predicate ReadyFor(log: seq<Event>, h: seq<byte>) {
    var n := |log|;
    && n >= 3 && log[n - 1].NewKeysReceived? && log[n - 2].NewKeysSent?
    && AcceptedAt(log, n - 3) && h == Digest(log[n - 3].c, log[n - 3].t)
  }

  lemma {:induction false} SoundStep(log: seq<Event>, e: Event)
    requires Sound(log) && (e.KeysOn? ==> ReadyFor(log, e.h))
    ensures Sound(log + [e])
  {
    hide AcceptedAt, Digest;
    forall i | 0 <= i < |log + [e]| && (log + [e])[i].KeysOn?
      ensures 3 <= i && (log + [e])[i - 1].NewKeysReceived? && (log + [e])[i - 2].NewKeysSent?
      ensures (log + [e])[i - 3].Accepted?
      ensures AcceptedAt(log + [e], i - 3) && (log + [e])[i].h == Digest((log + [e])[i - 3].c, (log + [e])[i - 3].t)
    {
      if i < |log| {
        assert log[i].KeysOn?;
      }
      AcceptedStays(log, e, i - 3);
    }
  }

  /** Adding a step that comes later keeps the history sound. */
  lemma {:induction false} Extend(log: seq<Event>, e: Event)
    requires Forward(log) && Sound(log)
    requires e.Began? || (|log| > 0 && Rank(log[|log| - 1]) < Rank(e))
    requires e.KeysOn? ==> ReadyFor(log, e.h)
    ensures Forward(log + [e]) && Sound(log + [e])
    ensures FirstOn(log + [e]) == if FirstOn(log).None? && e.KeysOn? then Some(e.h) else FirstOn(log)
  {
    hide *;
    FirstOnStep(log, e);
    ForwardStep(log, e);
    SoundStep(log, e);
  }

  /** The six keys of section 7.2. */
  ghost function KeysOf(c: Crypto, s: Secret, n: KeySizes): Keys
    requires c.hash.Valid()
  {
    Keys(Key(c.hash, s, 65, n.ivOut), Key(c.hash, s, 66, n.ivIn), Key(c.hash, s, 67, n.encOut),
         Key(c.hash, s, 68, n.encIn), Key(c.hash, s, 69, n.macOut), Key(c.hash, s, 70, n.macIn))
  }

  /** A key of a length that every long enough stretch of the stream of a letter starts with. */
  ghost predicate StartsStream(hash: Hash, s: Secret, letter: char, key: seq<byte>, length: nat) {
    letter as int < 256 && |key| == length
    && forall n: nat :: length <= n * hash.size ==> key <= Stream(hash, s, letter as int, n)
  }

  /** The letters of section 7.2: A and B for the IVs, C and D for encryption, E and F for integrity. */
  ghost predicate ByLetters(hash: Hash, s: Secret, k: Keys, n: KeySizes) {
    && StartsStream(hash, s, 'A', k.ivOut, n.ivOut) && StartsStream(hash, s, 'B', k.ivIn, n.ivIn)
    && StartsStream(hash, s, 'C', k.encOut, n.encOut) && StartsStream(hash, s, 'D', k.encIn, n.encIn)
    && StartsStream(hash, s, 'E', k.macOut, n.macOut) && StartsStream(hash, s, 'F', k.macIn, n.macIn)
  }

  lemma {:induction false} LetterOf(hash: Hash, s: Secret, letter: char, length: nat)
    requires hash.Valid() && letter as int < 256
    ensures StartsStream(hash, s, letter, Key(hash, s, letter as int, length), length)
  {
    hide Key, Stream;
    forall n: nat | length <= n * hash.size
      ensures Key(hash, s, letter as int, length) <= Stream(hash, s, letter as int, n)
    {
      KeyIsPrefixOfStream(hash, s, letter as int, length, n);
    }
  }

  lemma {:induction false} LettersOf(c: Crypto, s: Secret, n: KeySizes)
    requires c.hash.Valid()
    ensures ByLetters(c.hash, s, KeysOf(c, s, n), n)
  {
    hide Key, StartsStream;
    LetterOf(c.hash, s, 'A', n.ivOut);
    LetterOf(c.hash, s, 'B', n.ivIn);
    LetterOf(c.hash, s, 'C', n.encOut);
    LetterOf(c.hash, s, 'D', n.encIn);
    LetterOf(c.hash, s, 'E', n.macOut);
    LetterOf(c.hash, s, 'F', n.macIn);
  }

  class Exchange {
    const clientBanner: seq<byte>
    const serverBanner: seq<byte>
    // exchange state
    var state: State
    var c: Crypto
    var x: nat
    var ePacket: seq<byte>
    var t: Transcript
    var h: seq<byte>
    // session state
    var newkeys: bool
    var sessionId: Option<seq<byte>>
    var burnOptimistic: bool
    var localKexInit: seq<byte>
    var remoteKexInit: seq<byte>
    var keys: Option<Keys>
    ghost var log: seq<Event>

    /** What holds between calls, in every run. */
    ghost predicate Valid()
      reads this
    {
      && (state != Idle ==> c.hash.Valid())
      && Forward(log) && Sound(log)
      && TailOf(c, log, state, ePacket, t, burnOptimistic)
      && (state in {Created, SentInit, Sent1} ==> ePacket == [c.packetInit] + Field(c.public(x)))
      && (state in {Sent2, Sent3} ==> h == Digest(c, t))
      && newkeys == FirstOn(log).Some?
      && sessionId == FirstOn(log)
    }

    /** The keys were switched on and installed last. */
    ghost predicate JustInstalled()
      reads this
    {
      keys.Some? && |log| >= 2 && log[|log| - 2].KeysOn? && log[|log| - 1] == Installed(keys.value)
    }

    /** This step belongs to the exchange that is under way. */
    twostate predicate GoesOn()
      reads this
    {
      && c == old(c) && localKexInit == old(localKexInit) && remoteKexInit == old(remoteKexInit)
      && Continues(old(log), log, localKexInit, remoteKexInit)
    }

    constructor (clientBanner: seq<byte>, serverBanner: seq<byte>)
      ensures Valid() && log == [] && !newkeys && sessionId == None && state == Idle
    {
      this.clientBanner, this.serverBanner := clientBanner, serverBanner;
      c := Crypto(Hash(_ => [], 0), _ => [], (_, _) => [], (_, _, _) => false, 0, [], []);
      state, x, ePacket, h, newkeys, sessionId, burnOptimistic := Idle, 0, [], [], false, None, false;
      t := Transcript([], [], [], [], [], [], [], [], []);
      localKexInit, remoteKexInit, keys := [], [], None;
      log := [];
    }

    /** Nothing goes wrong with this method in a call, though it may block. */
    ghost predicate NothingFails(env: Env)
      reads `c
    {
      && env.sendInit != Failed && !env.burn.Lost? && !env.reply.Lost?
      && (env.reply.Got? ==> env.hostkeyOk && forall h :: c.verify(env.reply.value.hostkey, env.reply.value.sig, h))
      && env.sendNewKeys != Failed && !env.newKeys.Lost? && env.initOk
    }

    /**
     One call of the exchange: it runs the steps that are left until one would
     block, one fails or the exchange is finished.
     */
    method Call(env: Env) returns (rc: Rc)
      requires Valid() && (state == Idle ==> env.crypto.hash.Valid())
      modifies this
      ensures Valid()
      ensures c == if old(state) == Idle then env.crypto else old(c)
      ensures Continues(if old(state) == Idle then old(log) + [Began(env.guessed)] else old(log),
                        log, localKexInit, remoteKexInit)
      ensures localKexInit == if old(state) == Idle then env.localKexInit else old(localKexInit)
      ensures remoteKexInit == if old(state) == Idle then env.remoteKexInit else old(remoteKexInit)
      ensures old(sessionId).Some? ==> sessionId == old(sessionId)
      ensures old(newkeys) ==> newkeys
      ensures rc == Ok ==> newkeys && state == Idle && keys.Some? && JustInstalled()
      ensures rc == Eagain <==> state != Idle
      ensures NothingFails(env) ==> rc != Err
      ensures (&& env.sendInit == Sent && env.burn.Got? && env.reply.Got? && env.hostkeyOk
               && env.sendNewKeys == Sent && env.newKeys.Got? && env.initOk
               && forall h :: c.verify(env.reply.value.hostkey, env.reply.value.sig, h)) ==> rc == Ok
      ensures (&& old(state) == Idle && env.sendInit == Sent && env.burn.Got? && env.reply.Got?
               && forall h :: !c.verify(env.reply.value.hostkey, env.reply.value.sig, h)) ==> rc == Err
    {
      hide Exchange.Valid, Continues, Digest, HashInput, KeysOf;
      if state == Idle {
        Begin(env);
      }
      rc := Agree(env);
      if rc == Ok {
        ghost var before := log;
        rc := SwitchOver(env);
        ghost var start := if old(state) == Idle then old(log) + [Began(env.guessed)] else old(log);
        ContinuesOn(start, before, log, localKexInit, remoteKexInit);
      }
    }

    /** The steps up to the server's signature, as far as they are left. */
    method Agree(env: Env) returns (rc: Rc)
      requires Valid() && state != Idle
      modifies this
      ensures Valid() && GoesOn() && sessionId == old(sessionId) && newkeys == old(newkeys)
      ensures rc == Ok <==> state in {Sent2, Sent3}
      ensures rc == Err <==> state == Idle
      ensures NothingFails(env) ==> rc != Err
      ensures (&& env.sendInit == Sent && env.burn.Got? && env.reply.Got? && env.hostkeyOk
               && forall h :: c.verify(env.reply.value.hostkey, env.reply.value.sig, h)) ==> rc == Ok
      ensures (&& old(state) == Created && env.sendInit == Sent && env.burn.Got? && env.reply.Got?
               && forall h :: !c.verify(env.reply.value.hostkey, env.reply.value.sig, h)) ==> rc == Err
    {
      hide Exchange.Valid, Continues, Digest, HashInput;
      NothingHappened(log, localKexInit, remoteKexInit);
      rc := Ok;
      ghost var before := log;
      if state == Created {
        rc := SendInitPacket(env.sendInit);
      }
      ContinuesOn(old(log), before, log, localKexInit, remoteKexInit);
      before := log;
      NothingHappened(log, localKexInit, remoteKexInit);
      if state == SentInit {
        rc := BurnGuess(env.burn);
      }
      ContinuesOn(old(log), before, log, localKexInit, remoteKexInit);
      if state == Sent1 {
        before := log;
        rc := TakeReply(env.reply, env.hostkeyOk);
        ContinuesOn(old(log), before, log, localKexInit, remoteKexInit);
      }
    }

    /** The two NEWKEYS messages, as far as they are left, and the keys. */
    method SwitchOver(env: Env) returns (rc: Rc)
      requires Valid() && state in {Sent2, Sent3}
      modifies this
      ensures Valid() && GoesOn()
      ensures old(sessionId).Some? ==> sessionId == old(sessionId)
      ensures old(newkeys) ==> newkeys
      ensures rc == Ok ==> newkeys && keys.Some? && JustInstalled()
      ensures rc == Eagain <==> state != Idle
      ensures env.sendNewKeys == Sent && env.newKeys.Got? && env.initOk ==> rc == Ok
      ensures NothingFails(env) ==> rc != Err
    {
      hide Exchange.Valid, Continues, Digest, HashInput, KeysOf;
      NothingHappened(log, localKexInit, remoteKexInit);
      if state == Sent2 {
        rc := SendNewKeys(env.sendNewKeys);
        if rc != Ok {
          return;
        }
      }
      ghost var before := log;
      rc := TakeNewKeys(env.newKeys, env.sizes, env.initOk);
      ContinuesOn(old(log), before, log, localKexInit, remoteKexInit);
    }

    method Begin(env: Env)
      requires Valid() && state == Idle && env.crypto.hash.Valid()
      modifies this
      ensures Valid() && state == Created && log == old(log) + [Began(env.guessed)]
      ensures c == env.crypto && x == env.x && burnOptimistic == env.guessed
      ensures localKexInit == env.localKexInit && remoteKexInit == env.remoteKexInit
      ensures sessionId == old(sessionId) && newkeys == old(newkeys)
    {
      hide Digest, FirstOn, Sound, Forward, HashInput;
      Extend(log, Began(env.guessed));
      localKexInit, remoteKexInit, burnOptimistic := env.localKexInit, env.remoteKexInit, env.guessed;
      c, x := env.crypto, env.x;
      ePacket := [c.packetInit] + Field(c.public(x));
      log := log + [Began(env.guessed)];
      state := Created;
    }

    method SendInitPacket(outcome: SendResult) returns (rc: Rc)
      requires Valid() && state == Created
      modifies this
      ensures Valid() && GoesOn() && sessionId == old(sessionId) && newkeys == old(newkeys)
      ensures state == (if rc == Ok then SentInit else if rc == Eagain then Created else Idle)
      ensures (rc == Ok <==> outcome == Sent) && (rc == Eagain <==> outcome == Again)
    {
      hide Digest, FirstOn, Sound, Forward, HashInput;
      match outcome {
        case Again => rc := Eagain;
        case Failed =>
          state := Idle;
          rc := Err;
        case Sent =>
          Extend(log, InitSent(ePacket));
          log := log + [InitSent(ePacket)];
          state := SentInit;
          rc := Ok;
      }
    }

    /** Drops the packet that the server guessed wrongly. */
    method BurnGuess(outcome: Receive<()>) returns (rc: Rc)
      requires Valid() && state == SentInit
      modifies this
      ensures Valid() && GoesOn() && sessionId == old(sessionId) && newkeys == old(newkeys)
      ensures state == (if rc == Ok then Sent1 else if rc == Eagain then SentInit else Idle)
      ensures (rc == Ok <==> !old(burnOptimistic) || outcome.Got?)
                && (rc == Eagain <==> old(burnOptimistic) && outcome.Wait?)
    {
      hide Digest, FirstOn, Sound, Forward, HashInput;
      if burnOptimistic {
        match outcome {
          case Wait => return Eagain;
          case Lost =>
            state := Idle;
            return Err;
          case Got(_) =>
            burnOptimistic := false;
            Extend(log, Burnt);
            log := log + [Burnt];
        }
      }
      state := Sent1;
      rc := Ok;
    }

    /** What this exchange hashes, given the server's reply. */
    function TranscriptOf(r: Reply): Transcript
      requires |ePacket| >= 1
      reads this
    {
      Transcript(clientBanner, serverBanner, localKexInit, remoteKexInit, r.hostkey, ePacket[1..], r.f,
                 Field(c.shared(x, r.f)), r.sig)
    }

    /** Hashes the exchange and verifies the server's signature on the hash. */
    method TakeReply(reply: Receive<Reply>, hostkeyOk: bool) returns (rc: Rc)
      requires Valid() && state == Sent1
      modifies `t, `h, `state, `log
      ensures Valid() && GoesOn() && sessionId == old(sessionId) && newkeys == old(newkeys)
      ensures state == (if rc == Ok then Sent2 else if rc == Eagain then Sent1 else Idle)
      ensures rc == Eagain <==> reply.Wait?
      ensures rc == Ok <==> reply.Got? && hostkeyOk
                            && c.verify(reply.value.hostkey, reply.value.sig, Digest(c, old(TranscriptOf(reply.value))))
      ensures rc == Ok ==> t == old(TranscriptOf(reply.value))
      ensures rc == Ok ==>
                && t.hostkey == reply.value.hostkey && t.sig == reply.value.sig && t.f == reply.value.f
                && t.k == Field(c.shared(x, reply.value.f)) && ePacket == [c.packetInit] + t.e
      ensures rc == Ok && Fit(t) ==>
                FirstFields(HashInput(c, t), 5)
                == Some([clientBanner, serverBanner, localKexInit, remoteKexInit, reply.value.hostkey])
    {
      hide Digest, FirstOn, Sound, Forward, HashInput, FirstFields, Fit, AcceptedAt, Rank, Field;
      match reply {
        case Wait => rc := Eagain;
        case Lost =>
          state := Idle;
          rc := Err;
        case Got(r) =>
          if !hostkeyOk {
            state := Idle;
            return Err;
          }
          t := TranscriptOf(r);
          h := Digest(c, t);
          if !c.verify(r.hostkey, r.sig, h) {
            state := Idle;
            return Err;
          }
          assert ePacket == [c.packetInit] + t.e;
          if Fit(t) {
            HashCovers(c, t);
          }
          AcceptNow(c, log, ePacket, t, x);
          Extend(log, Accepted(c, t, x));
          log := log + [Accepted(c, t, x)];
          state := Sent2;
          rc := Ok;
      }
    }

    method SendNewKeys(outcome: SendResult) returns (rc: Rc)
      requires Valid() && state == Sent2
      modifies this
      ensures Valid() && GoesOn() && sessionId == old(sessionId) && newkeys == old(newkeys)
      ensures state == (if rc == Ok then Sent3 else if rc == Eagain then Sent2 else Idle)
      ensures (rc == Ok <==> outcome == Sent) && (rc == Eagain <==> outcome == Again)
    {
      hide Digest, FirstOn, Sound, Forward, HashInput;
      match outcome {
        case Again => rc := Eagain;
        case Failed =>
          state := Idle;
          rc := Err;
        case Sent =>
          Extend(log, NewKeysSent);
          log := log + [NewKeysSent];
          state := Sent3;
          rc := Ok;
      }
    }

    /** Switches the keys on and derives them. */
    method TakeNewKeys(outcome: Receive<()>, sizes: KeySizes, initOk: bool) returns (rc: Rc)
      requires Valid() && state == Sent3
      modifies this
      ensures Valid() && GoesOn()
      ensures old(sessionId).Some? ==> sessionId == old(sessionId)
      ensures old(newkeys) ==> newkeys
      ensures state == if rc == Eagain then Sent3 else Idle
      ensures (rc == Ok <==> outcome.Got? && initOk) && (rc == Eagain <==> outcome.Wait?)
      ensures rc == Ok ==> newkeys && keys.Some? && JustInstalled()
      ensures rc == Ok ==> sessionId.Some? && keys.value == KeysOf(c, Secret(old(t).k, old(h), sessionId.value), sizes)
      ensures rc == Ok ==> ByLetters(c.hash, Secret(old(t).k, old(h), sessionId.value), keys.value, sizes)
    {
      hide Digest, FirstOn, Sound, Forward, HashInput, AcceptedAt, KeysOf, ByLetters;
      match outcome {
        case Wait => return Eagain;
        case Lost =>
          state := Idle;
          return Err;
        case Got(_) =>
      }
      SwitchOn();
      if !initOk {
        return Err;
      }
      var k := DeriveAll(c, Secret(t.k, h, sessionId.value), sizes);
      keys := Some(k);
      Extend(log, Installed(k));
      log := log + [Installed(k)];
      rc := Ok;
    }

    /** Sets the NEWKEYS bit, and the session id if there is none yet. */
    method SwitchOn()
      requires Valid() && state == Sent3
      modifies `newkeys, `sessionId, `log, `state
      ensures Valid() && |log| > 0 && state == Idle && log[|log| - 1].KeysOn?
      ensures GoesOn()
      ensures newkeys && sessionId == if old(sessionId).Some? then old(sessionId) else Some(h)
    {
      hide Digest, FirstOn, Sound, Forward, HashInput, AcceptedAt;
      AcceptedStays(log, NewKeysReceived, |log| - 2);
      Extend(log, NewKeysReceived);
      log := log + [NewKeysReceived];
      Extend(log, KeysOn(h));
      log := log + [KeysOn(h)];
      newkeys := true;
      if sessionId.None? {
        sessionId := Some(h);
      }
      state := Idle;
    }
  }

  /** Derives the keys of both directions with the letters A to F. */
  method DeriveAll(c: Crypto, s: Secret, n: KeySizes) returns (keys: Keys)
    requires c.hash.Valid()
    ensures keys == KeysOf(c, s, n) && ByLetters(c.hash, s, keys, n)
  {
    LettersOf(c, s, n);
    var ivOut := Derive(c.hash, s, 65, n.ivOut);
    var encOut := Derive(c.hash, s, 67, n.encOut);
    var ivIn := Derive(c.hash, s, 66, n.ivIn);
    var encIn := Derive(c.hash, s, 68, n.encIn);
    var macOut := Derive(c.hash, s, 69, n.macOut);
    var macIn := Derive(c.hash, s, 70, n.macIn);
    keys := Keys(ivOut[..n.ivOut], ivIn[..n.ivIn], encOut[..n.encOut], encIn[..n.encIn],
                 macOut[..n.macOut], macIn[..n.macIn]);
  }

  /**
   Every run, over any number of exchanges with any groups and hashes, with any
   number of blocked calls and failures: the NEWKEYS bit is set only where NEWKEYS
   was received after it was sent after the signature on this exchange's hash was
   verified; no finished step is repeated; and the session id is the hash of the
   first exchange that switched keys on.
   */
  method Run(clientBanner: seq<byte>, serverBanner: seq<byte>, script: seq<Env>) returns (ex: Exchange)
    requires forall k :: 0 <= k < |script| ==> script[k].crypto.hash.Valid()
    ensures fresh(ex) && ex.Valid()
    ensures Sound(ex.log) && Forward(ex.log)
    ensures ex.newkeys <==> exists i :: 0 <= i < |ex.log| && ex.log[i].KeysOn?
    ensures ex.sessionId == FirstOn(ex.log)
  {
    hide Digest, FirstOn, Sound, Forward, TailOf, AcceptedAt;
    ex := new Exchange(clientBanner, serverBanner);
    for k := 0 to |script|
      invariant ex.Valid() && fresh(ex)
    {
      var rc := ex.Call(script[k]);
    }
    FirstOnExists(ex.log);
  }

  lemma {:induction false} FirstOnExists(log: seq<Event>)
    ensures FirstOn(log).Some? <==> exists i :: 0 <= i < |log| && log[i].KeysOn?
  {
    if log != [] {
      var front := log[..|log| - 1];
      FirstOnExists(front);
      if i :| 0 <= i < |front| && front[i].KeysOn? {
        assert log[i].KeysOn?;
      }
      if i :| 0 <= i < |log| && log[i].KeysOn? {
        assert i < |front| ==> front[i].KeysOn?;
      }
    }
  }

  /** Later exchanges never change the session id. */
  lemma {:induction false} FirstOnIsStable(log: seq<Event>, longer: seq<Event>)
    requires log <= longer && FirstOn(log).Some?
    ensures FirstOn(longer) == FirstOn(log)
  {
    if |log| < |longer| {
      FirstOnIsStable(log, longer[..|longer| - 1]);
    } else {
      assert log == longer;
    }
  }
}
