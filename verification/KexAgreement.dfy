/**
 The negotiating side of a session: agreeing on every method with the server,
 and sending KEXINIT over a transport that may block.
 */
module KexAgreement {
  import opened Bytes
  import opened NameList
  import opened Negotiation
  import opened KexInit
  import opened Transport

  // ---- One step of the two searches

  lemma {:induction false} PrefStep(prefs: Name, s: nat)
    requires s < |prefs|
    ensures var j := NextComma(prefs, s);
            && COMMA !in prefs[s..j]
            && PrefNames(prefs, s) == [prefs[s..j]] + if j == |prefs| then [] else PrefNames(prefs, j + 1)
  {
  }

  lemma {:induction false} OffersStep(name: Name, rest: seq<Name>, table: seq<Method>, server: seq<Name>, need: Need)
    ensures First(Offers([name] + rest, table, server), need) ==
            (if name !in server then First(Offers(rest, table, server), need)
             else if ByName(table, name).None? then None
             else if Meets(need, ByName(table, name).value) then ByName(table, name)
             else First(Offers(rest, table, server), need))
  {
    assert ([name] + rest)[1..] == rest;
    var offers := Offers(rest, table, server);
    assert ByName(table, name).Some? ==> ([ByName(table, name).value] + offers)[1..] == offers;
  }

  lemma {:induction false} TableStep(table: seq<Method>, i: nat, server: seq<Name>, need: Need)
    requires i < |table|
    ensures First(TableOffers(table[i..], server), need) ==
            (if table[i].name in server && Meets(need, table[i]) then Some(table[i])
             else First(TableOffers(table[i + 1..], server), need))
  {
    assert table[i..][1..] == table[i + 1..];
    var offers := TableOffers(table[i + 1..], server);
    assert ([table[i]] + offers)[1..] == offers && [] + offers == offers;
  }

  lemma {:induction false} NoOffers(prefs: Name, table: seq<Method>, server: seq<Name>, need: Need)
    ensures First(Offers(PrefNames(prefs, |prefs|), table, server), need) == None
    ensures First(Offers([], table, server), need) == None
    ensures First(TableOffers(table[|table|..], server), need) == None
  {
  }

  /** Looks a method up by name. */
  method GetMethodByName(table: seq<Method>, name: Name) returns (m: Option<Method>)
    ensures m == ByName(table, name)
  {
    var i := 0;
    while i < |table|
      invariant 0 <= i <= |table| && ByName(table[i..], name) == ByName(table, name)
    {
      if table[i].name == name {
        return Some(table[i]);
      }
      assert table[i..][1..] == table[i + 1..];
      i := i + 1;
    }
    return None;
  }

  /**
   Agrees on a cipher, a MAC, a compression method (`Any`) or a host key (with
   the abilities that the key exchange requires).
   */
  method Agree(prefs: Option<Name>, table: seq<Method>, server: Name, need: Need) returns (m: Option<Method>)
    requires GoodTable(table) && !need.Exchange?
    ensures m == First(Offered(prefs, table, server), need)
    ensures Supported(Wanted(prefs, table), table) ==> IsChoice(Wanted(prefs, table), table, Names(server), need, m)
    ensures m.Some? ==>
              && m.value in table && m.value.name in Wanted(prefs, table) && m.value.name in Names(server)
              && (need.HostKey? ==> (need.encrypt ==> m.value.encrypt) && (need.sign ==> m.value.sign))
    ensures m.None? && Supported(Wanted(prefs, table), table) ==>
              forall n :: n in Wanted(prefs, table) && n in Names(server) ==>
                && need.HostKey? && ByName(table, n).Some?
                && ((need.encrypt && !ByName(table, n).value.encrypt) || (need.sign && !ByName(table, n).value.sign))
  {
    hide IsChoice, First, Offered, Names, GoodTable, Supported, Wanted;
    m := Search(prefs, table, server, need);
    if need.HostKey? {
      HostkeyChoice(prefs, table, server, Method([], need.encrypt, need.sign));
    }
    ChoiceIsKnown(prefs, table, server, need);
    if m.None? && need.Any? && Supported(Wanted(prefs, table), table) {
      forall n | n in Wanted(prefs, table) && n in Names(server)
        ensures false
      {
        NoChoice(prefs, table, server, need, n);
      }
    }
    if Supported(Wanted(prefs, table), table) {
      Negotiated(prefs, table, server, need);
    }
  }

  /** The search itself. */
  method Search(prefs: Option<Name>, table: seq<Method>, server: Name, need: Need) returns (m: Option<Method>)
    requires GoodTable(table) && !need.Exchange?
    ensures m == First(Offered(prefs, table, server), need)
  {
    hide Offers, TableOffers, First, PrefNames, Names, FirstIndex, ByName, TableNames;
    ghost var srv := Names(server);
    match prefs {
      case Some(p) =>
        var s := 0;
        while s < |p|
          invariant 0 <= s <= |p|
          invariant First(Offers(PrefNames(p, s), table, srv), need) == First(Offers(PrefNames(p, 0), table, srv), need)
        {
          PrefStep(p, s);
          var j := FindComma(p, s);
          var name := p[s..j];
          OffersStep(name, if j == |p| then [] else PrefNames(p, j + 1), table, srv, need);
          var found := AgreeInstr(server, name);
          if found.Some? {
            m := GetMethodByName(table, name);
            if m.None? {
              return None;
            }
            if need.Any? || ((!need.encrypt || m.value.encrypt) && (!need.sign || m.value.sign)) {
              return m;
            }
          }
          if j == |p| {
            NoOffers(p, table, srv, need);
            return None;
          }
          s := j + 1;
        }
        NoOffers(p, table, srv, need);
        return None;
      case None =>
        var i := 0;
        assert table[0..] == table;
        while i < |table|
          invariant 0 <= i <= |table|
          invariant First(TableOffers(table[i..], srv), need) == First(TableOffers(table, srv), need)
        {
          TableStep(table, i, srv, need);
          GoodTableName(table, i);
          var found := AgreeInstr(server, table[i].name);
          if found.Some? && (need.Any? || ((!need.encrypt || table[i].encrypt) && (!need.sign || table[i].sign))) {
            return Some(table[i]);
          }
          i := i + 1;
        }
        NoOffers([], table, srv, need);
        return None;
    }
  }

  lemma {:induction false} GoodTableName(table: seq<Method>, i: nat)
    requires GoodTable(table) && i < |table|
    ensures COMMA !in table[i].name
  {
    assert GoodName(TableNames(table)[i]);
  }

  lemma {:induction false} StartIsZero(names: seq<Name>, k: nat)
    requires k < |names|
    ensures Start(names, k) == 0 <==> k == 0
  {
  }

  /** What is agreed for one direction of the connection. */
  datatype Endpoint = Endpoint(cryptPrefs: Option<Name>, macPrefs: Option<Name>, compPrefs: Option<Name>,
                               crypt: Option<Method>, mac: Option<Method>, comp: Option<Method>)

  /** The eight preference strings of a session. */
  datatype Preferences = Preferences(
    kex: Option<Name>, hostkey: Option<Name>, cryptOut: Option<Name>, cryptIn: Option<Name>,
    macOut: Option<Name>, macIn: Option<Name>, compOut: Option<Name>, compIn: Option<Name>)

  const NO_PREFERENCES := Preferences(None, None, None, None, None, None, None, None)

  class Session {
    const kexTable: seq<Method>
    const hostkeyTable: seq<Method>
    const cryptTable: seq<Method>
    const macTable: seq<Method>
    const compTable: seq<Method>
    var kexPrefs: Option<Name>
    var hostkeyPrefs: Option<Name>
    var kex: Option<Method>
    var hostkey: Option<Method>
    var burnOptimistic: bool
    var local: Endpoint
    var remote: Endpoint

    constructor (kexTable: seq<Method>, hostkeyTable: seq<Method>, cryptTable: seq<Method>,
                 macTable: seq<Method>, compTable: seq<Method>)
      ensures this.kexTable == kexTable && this.hostkeyTable == hostkeyTable && this.cryptTable == cryptTable
      ensures this.macTable == macTable && this.compTable == compTable
      ensures Wants() == NO_PREFERENCES && kex == None && hostkey == None
    {
      this.kexTable, this.hostkeyTable := kexTable, hostkeyTable;
      this.cryptTable, this.macTable, this.compTable := cryptTable, macTable, compTable;
      kexPrefs, hostkeyPrefs, kex, hostkey, burnOptimistic := None, None, None, None, false;
      local := Endpoint(None, None, None, None, None, None);
      remote := Endpoint(None, None, None, None, None, None);
    }

    /** What the user asked for; negotiation does not change it. */
    function Wants(): Preferences
      reads this
    {
      Preferences(kexPrefs, hostkeyPrefs, local.cryptPrefs, remote.cryptPrefs, local.macPrefs, remote.macPrefs,
                  local.compPrefs, remote.compPrefs)
    }

    /** All eight lists of the server's packet have a choice. */
    ghost predicate AgreesOn(p: Preferences, data: seq<byte>) {
      && Readable(data, 17, 8) && ReadLists(data, 17, 8).Some? && ReadLists(data, 17, 8).value.1 < |data|
      && HasChoices(p, ReadLists(data, 17, 8).value.0)
    }

    ghost predicate HasChoices(p: Preferences, l: seq<Name>)
      requires |l| == 8
    {
      && First(Offered(p.kex, kexTable, l[0]), Exchange(Offered(p.hostkey, hostkeyTable, l[1]))).Some?
      && Choice(p.cryptOut, cryptTable, l[2]).Some? && Choice(p.cryptIn, cryptTable, l[3]).Some?
      && Choice(p.macOut, macTable, l[4]).Some? && Choice(p.macIn, macTable, l[5]).Some?
      && Choice(p.compOut, compTable, l[6]).Some? && Choice(p.compIn, compTable, l[7]).Some?
    }

    ghost predicate GoodTables() {
      && GoodTable(kexTable) && GoodTable(hostkeyTable)
      && GoodTable(cryptTable) && GoodTable(macTable) && GoodTable(compTable)
    }

    /** The ten lists of this session's KEXINIT, in the order of the packet; there are no language tables. */
    function ListsFor(p: Preferences, langOut: Option<Name>, langIn: Option<Name>): (lists: seq<ListSource>)
      ensures |lists| == 10
    {
      [ListOf(p.kex, kexTable), ListOf(p.hostkey, hostkeyTable),
       ListOf(p.cryptOut, cryptTable), ListOf(p.cryptIn, cryptTable),
       ListOf(p.macOut, macTable), ListOf(p.macIn, macTable),
       ListOf(p.compOut, compTable), ListOf(p.compIn, compTable),
       ListOf(langOut, []), ListOf(langIn, [])]
    }

    /** Who reads the packet finds, list by list, the names that are wanted, in their order. */
    ghost predicate Spells(p: Preferences, data: seq<byte>) {
      && Readable(data, 17, 8) && ReadLists(data, 17, 8).Some?
      && var l := ReadLists(data, 17, 8).value.0;
         && PrefNames(l[0], 0) == Wanted(p.kex, kexTable)
         && PrefNames(l[1], 0) == Wanted(p.hostkey, hostkeyTable)
         && PrefNames(l[2], 0) == Wanted(p.cryptOut, cryptTable)
         && PrefNames(l[3], 0) == Wanted(p.cryptIn, cryptTable)
         && PrefNames(l[4], 0) == Wanted(p.macOut, macTable)
         && PrefNames(l[5], 0) == Wanted(p.macIn, macTable)
         && PrefNames(l[6], 0) == Wanted(p.compOut, compTable)
         && PrefNames(l[7], 0) == Wanted(p.compIn, compTable)
    }

    /** Agrees on a host key that suits a key exchange method. */
    method AgreeHostkey(k: Method, server: Name) returns (ok: bool)
      requires GoodTables()
      modifies `hostkey
      ensures var h := First(Offered(hostkeyPrefs, hostkeyTable, server), HostKey(k.encrypt, k.sign));
              ok == h.Some? && hostkey == if ok then h else old(hostkey)
      ensures Supported(Wanted(hostkeyPrefs, hostkeyTable), hostkeyTable) ==>
                IsChoice(Wanted(hostkeyPrefs, hostkeyTable), hostkeyTable, Names(server),
                         HostKey(k.encrypt, k.sign), if ok then hostkey else None)
      ensures ok ==>
                && hostkey.Some? && hostkey.value in hostkeyTable && hostkey.value.name in Names(server)
                && hostkey.value.name in Wanted(hostkeyPrefs, hostkeyTable)
                && (k.encrypt ==> hostkey.value.encrypt) && (k.sign ==> hostkey.value.sign)
      ensures !ok && Supported(Wanted(hostkeyPrefs, hostkeyTable), hostkeyTable) ==>
                forall n :: n in Wanted(hostkeyPrefs, hostkeyTable) && n in Names(server) ==>
                  && ByName(hostkeyTable, n).Some?
                  && var h := ByName(hostkeyTable, n).value;
                     (k.encrypt && !h.encrypt) || (k.sign && !h.sign)
    {
      hide IsChoice, First, Offered, Names, GoodTable, Supported, Wanted;
      var h := Agree(hostkeyPrefs, hostkeyTable, server, HostKey(k.encrypt, k.sign));
      if h.Some? {
        hostkey := h;
      }
      return h.Some?;
    }

    /** What the key exchange search needs: a host key that suits. */
    ghost function KexNeed(hostkeyList: Name): Need
      reads this
    {
      Exchange(Offered(hostkeyPrefs, hostkeyTable, hostkeyList))
    }

    /** Takes a key exchange method if a host key suits it. */
    method TryKex(k: Method, at: nat, hostkeyList: Name) returns (ok: bool)
      requires GoodTables()
      modifies `hostkey, `kex, `burnOptimistic
      ensures ok == Meets(KexNeed(hostkeyList), k)
      ensures ok ==> kex == Some(k) && burnOptimistic == (old(burnOptimistic) && at != 0)
      ensures ok ==> hostkey == First(Offered(hostkeyPrefs, hostkeyTable, hostkeyList), HostKey(k.encrypt, k.sign))
      ensures !ok ==> kex == old(kex) && hostkey == old(hostkey) && burnOptimistic == old(burnOptimistic)
    {
      ok := AgreeHostkey(k, hostkeyList);
      if ok {
        kex := Some(k);
        if burnOptimistic && at == 0 {
          burnOptimistic := false;
        }
      }
    }

    /**
     Agrees on a key exchange method and a host key.  A guessed packet of the
     server is kept when the server's first choice was agreed on.
     */
    method AgreeKexHostkey(kexList: Name, hostkeyList: Name) returns (ok: bool)
      requires GoodTables()
      modifies `hostkey, `kex, `burnOptimistic
      ensures ok ==>
                && kex.Some? && kex.value in kexTable && kex.value.name in Names(kexList)
                && kex.value.name in Wanted(kexPrefs, kexTable)
                && hostkey.Some? && hostkey.value in hostkeyTable && hostkey.value.name in Names(hostkeyList)
                && hostkey.value.name in Wanted(hostkeyPrefs, hostkeyTable)
                && (kex.value.encrypt ==> hostkey.value.encrypt) && (kex.value.sign ==> hostkey.value.sign)
      ensures !ok && Supported(Wanted(kexPrefs, kexTable), kexTable)
              && Supported(Wanted(hostkeyPrefs, hostkeyTable), hostkeyTable) ==>
                forall n, x :: && n in Wanted(kexPrefs, kexTable) && n in Names(kexList)
                               && x in Wanted(hostkeyPrefs, hostkeyTable) && x in Names(hostkeyList) ==>
                  && ByName(kexTable, n).Some? && ByName(hostkeyTable, x).Some?
                  && var k, h := ByName(kexTable, n).value, ByName(hostkeyTable, x).value;
                     (k.encrypt && !h.encrypt) || (k.sign && !h.sign)
      ensures Supported(Wanted(kexPrefs, kexTable), kexTable) ==>
                IsChoice(Wanted(kexPrefs, kexTable), kexTable, Names(kexList), old(KexNeed(hostkeyList)),
                         if ok then kex else None)
      ensures var k := First(Offered(kexPrefs, kexTable, kexList), KexNeed(hostkeyList));
              && ok == k.Some?
              && (ok ==>
                  kex == k && hostkey.Some?
                      && burnOptimistic == (old(burnOptimistic) && Names(kexList)[0] != k.value.name))
              && (ok ==>
                  hostkey == First(Offered(hostkeyPrefs, hostkeyTable, hostkeyList),
                                   HostKey(k.value.encrypt, k.value.sign)))
              && (!ok ==> kex == old(kex) && hostkey == old(hostkey) && burnOptimistic == old(burnOptimistic))
    {
      hide IsChoice, First, Offers, TableOffers, PrefNames, Names, GoodTable, Supported, Wanted;
      Spelled(kexList, hostkeyList);
      if Supported(Wanted(kexPrefs, kexTable), kexTable) {
        Negotiated(kexPrefs, kexTable, kexList, KexNeed(hostkeyList));
      }
      if kexPrefs.Some? {
        ok := KexByPrefs(kexPrefs.value, kexList, hostkeyList);
      } else {
        ok := KexByTable(kexList, hostkeyList);
      }
    }

    /** What the choice of a key exchange means, in names and abilities. */
    lemma {:induction false} Spelled(kexList: Name, hostkeyList: Name)
      requires GoodTables()
      ensures var k := First(Offered(kexPrefs, kexTable, kexList), KexNeed(hostkeyList));
              && (k.Some? ==>
                    && k.value in kexTable && k.value.name in Names(kexList)
                    && k.value.name in Wanted(kexPrefs, kexTable)
                    && var h := First(Offered(hostkeyPrefs, hostkeyTable, hostkeyList),
                                      HostKey(k.value.encrypt, k.value.sign));
                       && h.Some? && h.value in hostkeyTable && h.value.name in Names(hostkeyList)
                       && h.value.name in Wanted(hostkeyPrefs, hostkeyTable)
                       && (k.value.encrypt ==> h.value.encrypt) && (k.value.sign ==> h.value.sign))
              && (&& k.None? && Supported(Wanted(kexPrefs, kexTable), kexTable)
                  && Supported(Wanted(hostkeyPrefs, hostkeyTable), hostkeyTable) ==>
                    forall n, x :: && n in Wanted(kexPrefs, kexTable) && n in Names(kexList)
                                   && x in Wanted(hostkeyPrefs, hostkeyTable) && x in Names(hostkeyList) ==>
                      && ByName(kexTable, n).Some? && ByName(hostkeyTable, x).Some?
                      && var k, h := ByName(kexTable, n).value, ByName(hostkeyTable, x).value;
                         (k.encrypt && !h.encrypt) || (k.sign && !h.sign))
    {
      hide Names, GoodTable, Supported, Wanted, Offered;
      var k := First(Offered(kexPrefs, kexTable, kexList), KexNeed(hostkeyList));
      ChoiceIsKnown(kexPrefs, kexTable, kexList, KexNeed(hostkeyList));
      if k.Some? {
        HostkeyChoice(hostkeyPrefs, hostkeyTable, hostkeyList, k.value);
      } else if Supported(Wanted(kexPrefs, kexTable), kexTable)
                && Supported(Wanted(hostkeyPrefs, hostkeyTable), hostkeyTable) {
        forall n, x | && n in Wanted(kexPrefs, kexTable) && n in Names(kexList)
                      && x in Wanted(hostkeyPrefs, hostkeyTable) && x in Names(hostkeyList)
          ensures ByName(kexTable, n).Some? && ByName(hostkeyTable, x).Some?
          ensures var k, h := ByName(kexTable, n).value, ByName(hostkeyTable, x).value;
                  (k.encrypt && !h.encrypt) || (k.sign && !h.sign)
        {
          NoExchange(kexPrefs, kexTable, kexList, hostkeyPrefs, hostkeyTable, hostkeyList, n, x);
        }
      }
    }

    /** The search by preference string. */
    method KexByPrefs(p: Name, kexList: Name, hostkeyList: Name) returns (ok: bool)
      requires GoodTables()
      modifies `hostkey, `kex, `burnOptimistic
      ensures var k := First(Offers(PrefNames(p, 0), kexTable, Names(kexList)), KexNeed(hostkeyList));
              && ok == k.Some?
              && (ok ==> kex == k && burnOptimistic == (old(burnOptimistic) && Names(kexList)[0] != k.value.name))
              && (ok ==>
                  hostkey == First(Offered(hostkeyPrefs, hostkeyTable, hostkeyList),
                                   HostKey(k.value.encrypt, k.value.sign)))
              && (!ok ==> kex == old(kex) && hostkey == old(hostkey) && burnOptimistic == old(burnOptimistic))
    {
      hide Offers, TableOffers, First, PrefNames, Offered, Names, Meets, Start, FirstIndex, GoodTable;
      ghost var srv, need := Names(kexList), KexNeed(hostkeyList);
      var s := 0;
      while s < |p|
        invariant 0 <= s <= |p| && need == KexNeed(hostkeyList)
        invariant kex == old(kex) && hostkey == old(hostkey) && burnOptimistic == old(burnOptimistic)
        invariant First(Offers(PrefNames(p, s), kexTable, srv), need)
                    == First(Offers(PrefNames(p, 0), kexTable, srv), need)
      {
        PrefStep(p, s);
        var j := FindComma(p, s);
        var name := p[s..j];
        OffersStep(name, if j == |p| then [] else PrefNames(p, j + 1), kexTable, srv, need);
        var found := AgreeInstr(kexList, name);
        FirstOrNot(srv, name);
        if found.Some? {
          var m := GetMethodByName(kexTable, name);
          if m.None? {
            return false;
          }
          ok := TryKex(m.value, found.value, hostkeyList);
          if ok {
            return;
          }
        }
        if j == |p| {
          NoOffers(p, kexTable, srv, need);
          return false;
        }
        s := j + 1;
      }
      NoOffers(p, kexTable, srv, need);
      return false;
    }

    /** The search by table. */
    method KexByTable(kexList: Name, hostkeyList: Name) returns (ok: bool)
      requires GoodTables()
      modifies `hostkey, `kex, `burnOptimistic
      ensures var k := First(TableOffers(kexTable, Names(kexList)), KexNeed(hostkeyList));
              && ok == k.Some?
              && (ok ==> kex == k && burnOptimistic == (old(burnOptimistic) && Names(kexList)[0] != k.value.name))
              && (ok ==>
                  hostkey == First(Offered(hostkeyPrefs, hostkeyTable, hostkeyList),
                                   HostKey(k.value.encrypt, k.value.sign)))
              && (!ok ==> kex == old(kex) && hostkey == old(hostkey) && burnOptimistic == old(burnOptimistic))
    {
      hide Offers, TableOffers, First, PrefNames, Offered, Names, Meets, Start, FirstIndex;
      ghost var srv, need := Names(kexList), KexNeed(hostkeyList);
      var i := 0;
      assert kexTable[0..] == kexTable;
      while i < |kexTable|
        invariant 0 <= i <= |kexTable| && need == KexNeed(hostkeyList)
        invariant kex == old(kex) && hostkey == old(hostkey) && burnOptimistic == old(burnOptimistic)
        invariant First(TableOffers(kexTable[i..], srv), need) == First(TableOffers(kexTable, srv), need)
      {
        TableStep(kexTable, i, srv, need);
        GoodTableName(kexTable, i);
        FirstOrNot(srv, kexTable[i].name);
        var found := AgreeInstr(kexList, kexTable[i].name);
        if found.Some? {
          ok := TryKex(kexTable[i], found.value, hostkeyList);
          if ok {
            return;
          }
        }
        i := i + 1;
      }
      NoOffers([], kexTable, srv, need);
      return false;
    }

    /** The choice for a cipher, MAC or compression list. */
    static ghost function Choice(prefs: Option<Name>, table: seq<Method>, server: Name): Option<Method> {
      First(Offered(prefs, table, server), Any)
    }

    /**
     Decides on all methods from the server's packet; `past` is the memory behind
     it.  A packet whose lists or length fields run off its end is refused.
     Otherwise agreement is reached exactly when every list has a choice; the
     searches run in a fixed order and the first one that fails ends them.
     */
    method AgreeMethods(data: seq<byte>, past: nat -> byte) returns (ok: bool)
      requires GoodTables()
      modifies this
      ensures Wants() == old(Wants()) && (ok ==> kex.Some? && hostkey.Some?)
      ensures ok <==> AgreesOn(Wants(), data)
      ensures !Readable(data, 17, 8) || ReadLists(data, 17, 8).None? || ReadLists(data, 17, 8).value.1 >= |data| ==>
                !ok && kex == old(kex) && hostkey == old(hostkey) && local == old(local) && remote == old(remote)
      ensures Readable(data, 17, 8) && ReadLists(data, 17, 8).Some? && ReadLists(data, 17, 8).value.1 < |data| ==>
                var (l, next) := ReadLists(data, 17, 8).value;
                var k := First(Offered(kexPrefs, kexTable, l[0]), KexNeed(l[1]));
                var c1 := Choice(old(local).cryptPrefs, cryptTable, l[2]);
                var c2 := Choice(old(remote).cryptPrefs, cryptTable, l[3]);
                var m1 := Choice(old(local).macPrefs, macTable, l[4]);
                var m2 := Choice(old(remote).macPrefs, macTable, l[5]);
                var z1 := Choice(old(local).compPrefs, compTable, l[6]);
                var z2 := Choice(old(remote).compPrefs, compTable, l[7]);
                && ok == (k.Some? && c1.Some? && c2.Some? && m1.Some? && m2.Some? && z1.Some? && z2.Some?)
                && (k.Some? ==> kex == k && burnOptimistic == (data[next] != 0 && Names(l[0])[0] != k.value.name)
                                && hostkey == First(Offered(hostkeyPrefs, hostkeyTable, l[1]),
                                                    HostKey(k.value.encrypt, k.value.sign)))
                && (k.None? ==>
                    kex == old(kex) && hostkey == old(hostkey) && local == old(local) && remote == old(remote))
                && (ok ==> local == old(local).(crypt := c1, mac := m1, comp := z1))
                && (ok ==> remote == old(remote).(crypt := c2, mac := m2, comp := z2))
    {
      hide First, Offered, Names, ReadLists, Readable, ReadField, GoodTable, IsChoice, Supported, Wanted;
      ok := false;
      var lists, next := ParseLists(data, past);
      if lists.None? {
        return;
      }
      var l := lists.value;
      burnOptimistic := Octet(data, past, next) != 0;
      if |data| < next + 1 {
        return;
      }
      var agreed := AgreeKexHostkey(l[0], l[1]);
      if !agreed {
        return;
      }
      var m := Agree(local.cryptPrefs, cryptTable, l[2], Any);
      if m.None? { return; }
      local := local.(crypt := m);
      m := Agree(remote.cryptPrefs, cryptTable, l[3], Any);
      if m.None? { return; }
      remote := remote.(crypt := m);
      m := Agree(local.macPrefs, macTable, l[4], Any);
      if m.None? { return; }
      local := local.(mac := m);
      m := Agree(remote.macPrefs, macTable, l[5], Any);
      if m.None? { return; }
      remote := remote.(mac := m);
      m := Agree(local.compPrefs, compTable, l[6], Any);
      if m.None? { return; }
      local := local.(comp := m);
      m := Agree(remote.compPrefs, compTable, l[7], Any);
      if m.None? { return; }
      remote := remote.(comp := m);
      ok := true;
    }
  }

  /** Locates the eight lists of a packet. */
  method ParseLists(data: seq<byte>, past: nat -> byte) returns (lists: Option<seq<Name>>, next: nat)
    ensures lists.Some? ==> |lists.value| == 8
    ensures !Readable(data, 17, 8) ==> lists.None? || next > |data|
    ensures Readable(data, 17, 8) && ReadLists(data, 17, 8).None? ==> lists.None?
    ensures Readable(data, 17, 8) && ReadLists(data, 17, 8).Some? ==>
              lists == Some(ReadLists(data, 17, 8).value.0) && next == ReadLists(data, 17, 8).value.1
  {
    hide ReadField, NtohU32, ReadLists, Readable;
    var found := [];
    next := 17;
    var i := 0;
    PrependNothing(data);
    while i < 8
      invariant 0 <= i <= 8 && |found| == i
      invariant Ahead(data, found, next, i) || (next > |data| && !Readable(data, 17, 8))
    {
      AheadStep(data, found, next, i);
      var f := StringPair(data, past, next);
      if f.None? {
        return None, next;
      }
      found := found + [f.value.list];
      next := f.value.next;
      i := i + 1;
    }
    AheadDone(data, found, next);
    return Some(found), next;
  }

  /** The lists found so far, and those that are ahead, are those of the packet. */
  ghost predicate Ahead(data: seq<byte>, found: seq<Name>, next: nat, i: nat)
    requires i <= 8
  {
    && (Readable(data, 17, 8) <==> Readable(data, next, 8 - i))
    && (Readable(data, 17, 8) ==> ReadLists(data, 17, 8) == Prepend(found, ReadLists(data, next, 8 - i)))
  }

  lemma {:induction false} AheadStep(data: seq<byte>, found: seq<Name>, next: nat, i: nat)
    requires i < 8
    ensures Ahead(data, found, next, i) && next + 4 > |data| ==> !Readable(data, 17, 8)
    ensures Ahead(data, found, next, i) && next + 4 <= |data| && ReadField(data, next).None? ==>
              Readable(data, 17, 8) && ReadLists(data, 17, 8).None?
    ensures Ahead(data, found, next, i) && next + 4 <= |data| && ReadField(data, next).Some? ==>
              var f := ReadField(data, next).value;
              Ahead(data, found + [f.list], f.next, i + 1)
  {
    hide ReadField, Prepend, ReadLists;
    if Ahead(data, found, next, i) && next + 4 <= |data| {
      if ReadField(data, next).None? {
        ReadStep(data, next, 8 - i);
        PrependNone(found);
      } else {
        var f := ReadField(data, next).value;
        if Readable(data, 17, 8) {
          ReadStep(data, next, 8 - i);
          PrependStep(found, f.list, ReadLists(data, f.next, 7 - i));
        }
      }
    }
  }

  lemma {:induction false} AheadDone(data: seq<byte>, found: seq<Name>, next: nat)
    ensures Ahead(data, found, next, 8) ==> Readable(data, 17, 8) && ReadLists(data, 17, 8) == Some((found, next))
  {
    if Ahead(data, found, next, 8) {
      ReadStep(data, next, 0);
      assert found + [] == found;
    }
  }

  lemma {:induction false} PrependNone(found: seq<Name>)
    ensures Prepend(found, None) == None
  {
  }

  ghost function Prepend(found: seq<Name>, r: Option<(seq<Name>, nat)>): Option<(seq<Name>, nat)> {
    match r
    case None => None
    case Some((rest, next)) => Some((found + rest, next))
  }

  lemma {:induction false} PrependNothing(data: seq<byte>)
    ensures Ahead(data, [], 17, 0)
  {
    if Readable(data, 17, 8) && ReadLists(data, 17, 8).Some? {
      var r := ReadLists(data, 17, 8).value.0;
      assert [] + r == r;
    }
  }

  /** One list, then the others. */
  lemma {:induction false} ReadStep(data: seq<byte>, s: nat, count: nat)
    requires Readable(data, s, count)
    ensures count == 0 ==> ReadLists(data, s, count) == Some(([], s))
    ensures count > 0 ==> s + 4 <= |data|
    ensures count > 0 && ReadField(data, s).None? ==> ReadLists(data, s, count).None?
    ensures count > 0 && ReadField(data, s).Some? ==>
              var f := ReadField(data, s).value;
              Readable(data, f.next, count - 1)
              && ReadLists(data, s, count) == Prepend([f.list], ReadLists(data, f.next, count - 1))
  {
    hide ReadField;
  }

  lemma {:induction false} PrependStep(found: seq<Name>, list: Name, r: Option<(seq<Name>, nat)>)
    ensures Prepend(found, Prepend([list], r)) == Prepend(found + [list], r)
  {
    if r.Some? {
      assert found + ([list] + r.value.0) == found + [list] + r.value.0;
    }
  }

  /** The search reports position zero exactly for the server's first name. */
  lemma {:induction false} FirstOrNot(names: seq<Name>, name: Name)
    requires names != []
    ensures var k := FirstIndex(names, name);
            && (k < |names| <==> name in names)
            && (k < |names| ==> (Start(names, k) == 0 <==> names[0] == name))
  {
    if FirstIndex(names, name) < |names| {
      StartIsZero(names, FirstIndex(names, name));
    }
  }

  /** The list for a preference string, or for a table without one. */
  function ListOf(prefs: Option<Name>, table: seq<Method>): ListSource {
    match prefs
    case Some(p) => Prefs(p)
    case None => Table(TableNames(table))
  }

  lemma {:induction false} ListOfWanted(prefs: Option<Name>, table: seq<Method>)
    requires GoodTable(table)
    ensures PrefNames(ListText(ListOf(prefs, table)), 0) == Wanted(prefs, table)
  {
    if prefs.None? {
      PrefNamesOfJoin([], TableNames(table));
      assert [] + Join(TableNames(table)) == Join(TableNames(table));
    }
  }

  lemma {:induction false} TextsAt(lists: seq<ListSource>, i: nat)
    requires i < |lists|
    ensures Texts(lists)[i] == ListText(lists[i])
  {
    if i > 0 {
      TextsAt(lists[1..], i - 1);
    }
  }

  /** This session's KEXINIT spells what it wants. */
  lemma {:induction false} PeerSeesWanted(s: Session, p: Preferences, cookie: seq<byte>, langOut: Option<Name>,
                                          langIn: Option<Name>)
    requires s.GoodTables() && |cookie| == 16 && Sendable(s.ListsFor(p, langOut, langIn))
    ensures s.Spells(p, Packet(cookie, s.ListsFor(p, langOut, langIn)))
  {
    hide PrefNames, Wanted, ListText, ListOf, Packet, Fields, Readable, ReadLists, Texts, Sendable, GoodTable;
    OwnTexts(s.ListsFor(p, langOut, langIn), cookie);
    ListOfWanted(p.kex, s.kexTable);
    ListOfWanted(p.hostkey, s.hostkeyTable);
    ListOfWanted(p.cryptOut, s.cryptTable);
    ListOfWanted(p.cryptIn, s.cryptTable);
    ListOfWanted(p.macOut, s.macTable);
    ListOfWanted(p.macIn, s.macTable);
    ListOfWanted(p.compOut, s.compTable);
    ListOfWanted(p.compIn, s.compTable);
  }

  /** The texts that are read from a packet, one by one. */
  lemma {:induction false} OwnTexts(lists: seq<ListSource>, cookie: seq<byte>)
    requires |cookie| == 16 && Sendable(lists)
    ensures var data := Packet(cookie, lists);
            && Readable(data, 17, 8) && ReadLists(data, 17, 8).Some? && ReadLists(data, 17, 8).value.1 < |data|
            && forall i :: 0 <= i < 8 ==> ReadLists(data, 17, 8).value.0[i] == ListText(lists[i])
  {
    hide Readable, ReadLists, Texts, ListText, Packet, Fields;
    KexInitRoundTrip(cookie, lists);
    PacketLonger(cookie, lists);
    forall i | 0 <= i < 8
      ensures Texts(lists[..8])[i] == ListText(lists[i])
    {
      TextsAt(lists[..8], i);
    }
  }

  lemma {:induction false} PacketLonger(cookie: seq<byte>, lists: seq<ListSource>)
    requires |cookie| == 16 && Sendable(lists)
    ensures 17 + |Fields(lists[..8])| < |Packet(cookie, lists)|
  {
    FieldsSplit(lists, 8);
  }

  /** From its own table and with no preference, a session finds every name of the table in its own list. */
  lemma {:induction false} OwnListOffers(table: seq<Method>)
    requires GoodTable(table) && table != []
    ensures Offered(None, table, ListText(ListOf(None, table))) == table
  {
    var names := TableNames(table);
    forall i | 0 <= i < |names|
      ensures COMMA !in names[i]
    {
      assert GoodName(names[i]);
    }
    NamesOfJoin(names);
    AllOffered(table, names, 0);
    assert table[0..] == table;
  }

  lemma {:induction false} AllOffered(table: seq<Method>, server: seq<Name>, i: nat)
    requires i <= |table| && forall k :: 0 <= k < |table| ==> table[k].name in server
    ensures TableOffers(table[i..], server) == table[i..]
    decreases |table| - i
  {
    if i < |table| {
      assert table[i..][1..] == table[i + 1..];
      AllOffered(table, server, i + 1);
    }
  }

  /** A server that answers with the session's own packet agrees with it on everything. */
  lemma {:induction false} OwnPacketAgrees(s: Session, cookie: seq<byte>)
    requires s.GoodTables() && |cookie| == 16 && Sendable(s.ListsFor(NO_PREFERENCES, None, None))
    requires s.cryptTable != [] && s.macTable != [] && s.compTable != [] && s.kexTable != [] && s.hostkeyTable != []
    requires First(s.kexTable, Exchange(s.hostkeyTable)).Some?
    ensures s.AgreesOn(NO_PREFERENCES, Packet(cookie, s.ListsFor(NO_PREFERENCES, None, None)))
  {
    hide ListText, ListOf, Packet, Readable, ReadLists, Sendable, GoodTable, Offered, First;
    OwnTexts(s.ListsFor(NO_PREFERENCES, None, None), cookie);
    OwnListOffers(s.kexTable);
    OwnListOffers(s.hostkeyTable);
    OwnListOffers(s.cryptTable);
    OwnListOffers(s.macTable);
    OwnListOffers(s.compTable);
    FirstOfAny(s.cryptTable);
    FirstOfAny(s.macTable);
    FirstOfAny(s.compTable);
  }

  lemma {:induction false} FirstOfAny(table: seq<Method>)
    requires table != []
    ensures First(table, Any) == Some(table[0])
  {
  }

  /** Sending KEXINIT over a transport that may block. */
  class KexInitSender {
    var created: bool
    var pending: Option<seq<byte>>
    var localKexInit: Option<seq<byte>>
    var wire: seq<seq<byte>>

    /** A packet is kept for resending exactly while the send is blocked. */
    ghost predicate Valid()
      reads `created, `pending
    {
      created == pending.Some?
    }

    constructor ()
      ensures Valid() && !created && localKexInit == None && wire == []
    {
      created, pending, localKexInit, wire := false, None, None, [];
    }

    /**
     Sends KEXINIT.  A blocked call keeps its packet and the next call sends
     that one, whatever cookie and lists it is given; on success the packet on
     the wire is the one stored for the exchange hash.
     */
    method Send(cookie: seq<byte>, lists: seq<ListSource>, outcome: SendResult) returns (rc: SendResult)
      requires Valid() && |cookie| == 16 && Sendable(lists)
      modifies this
      ensures Valid() && rc == outcome
      ensures var packet := if old(pending).Some? then old(pending).value else Packet(cookie, lists);
              && (outcome == Again ==>
                  pending == Some(packet) && wire == old(wire) && localKexInit == old(localKexInit))
              && (outcome == Sent ==> pending == None && wire == old(wire) + [packet] && localKexInit == Some(packet))
              && (outcome == Failed ==> pending == None && wire == old(wire) && localKexInit == old(localKexInit))
    {
      var data;
      if !created {
        var buf := Build(cookie, lists);
        data := buf[..];
        created := true;
      } else {
        data := pending.value;
        pending := None;
      }
      match outcome {
        case Again =>
          pending := Some(data);
        case Failed =>
          created, pending := false, None;
        case Sent =>
          wire := wire + [data];
          localKexInit := Some(data);
          created := false;
      }
      return outcome;
    }

    /** Any number of blocked calls, then a send: one packet, and it is the stored one. */
    method SendUntilDone(cookies: seq<seq<byte>>, lists: seq<ListSource>)
      requires Valid() && pending == None && Sendable(lists)
      requires cookies != [] && forall i :: 0 <= i < |cookies| ==> |cookies[i]| == 16
      modifies this
      ensures Valid() && wire == old(wire) + [Packet(cookies[0], lists)]
      ensures localKexInit == Some(Packet(cookies[0], lists))
    {
      hide Packet;
      var n := |cookies| - 1;
      for i := 0 to n
        invariant Valid() && wire == old(wire)
        invariant pending == if i == 0 then None else Some(Packet(cookies[0], lists))
      {
        var rc := Send(cookies[i], lists, Again);
      }
      var rc := Send(cookies[n], lists, Sent);
    }
  }
}
