/**
 Method negotiation of section 7.1 of RFC 4253, from the client's side: the
 first method in the client's order that the server lists, and for the key
 exchange one for which a host key with the needed abilities also agrees.
 */
module Negotiation {
  import opened Bytes
  import opened NameList

  /**
   A method of a table.  For a host key the two flags are its abilities, for a
   key exchange they are what it requires of the host key, for the other kinds
   they are not used.
   */
  datatype Method = Method(name: Name, encrypt: bool, sign: bool)

  /** What makes an offered method acceptable. */
  datatype Need =
    | Any
    | HostKey(encrypt: bool, sign: bool)
    | Exchange(hostkeys: seq<Method>)
  {
    function Rank(): nat { if Exchange? then 1 else 0 }
  }

  /** The first method of a table with a name. */
  function ByName(table: seq<Method>, name: Name): (r: Option<Method>)
    ensures r.Some? ==> r.value.name == name && r.value in table
    ensures r.None? ==> forall m :: m in table ==> m.name != name
  {
    if table == [] then None
    else if table[0].name == name then Some(table[0])
    else ByName(table[1..], name)
  }

  /**
   The methods that the client names and the server lists, in the client's
   order.  A name that the client does not support ends the search.
   */
  function Offers(names: seq<Name>, table: seq<Method>, server: seq<Name>): (r: seq<Method>)
  {
    if names == [] then []
    else if names[0] !in server then Offers(names[1..], table, server)
    else match ByName(table, names[0])
      case None => []
      case Some(m) => [m] + Offers(names[1..], table, server)
  }

  /** The methods of a table that the server lists, in table order. */
  function TableOffers(table: seq<Method>, server: seq<Name>): (r: seq<Method>)
  {
    if table == [] then []
    else (if table[0].name in server then [table[0]] else []) + TableOffers(table[1..], server)
  }

  /** The names of a preference string; an empty rest ends it. */
  function PrefNames(prefs: Name, i: nat): (names: seq<Name>)
    requires i <= |prefs|
    decreases |prefs| - i
  {
    if i == |prefs| then [] else
    var j := NextComma(prefs, i);
    [prefs[i..j]] + if j == |prefs| then [] else PrefNames(prefs, j + 1)
  }

  /** What the client can offer a server: by preference string, or by table. */
  function Offered(prefs: Option<Name>, table: seq<Method>, server: Name): seq<Method> {
    match prefs
    case Some(p) => Offers(PrefNames(p, 0), table, Names(server))
    case None => TableOffers(table, Names(server))
  }

  predicate Meets(need: Need, m: Method)
    decreases need.Rank(), 0, 0
  {
    match need
    case Any => true
    case HostKey(encrypt, sign) => (encrypt ==> m.encrypt) && (sign ==> m.sign)
    case Exchange(hostkeys) => First(hostkeys, HostKey(m.encrypt, m.sign)).Some?
  }

  /** The first acceptable method. */
  function First(offers: seq<Method>, need: Need): (r: Option<Method>)
    ensures r.Some? ==> r.value in offers && Meets(need, r.value)
    decreases need.Rank(), 1, |offers|
  {
    if offers == [] then None
    else if Meets(need, offers[0]) then Some(offers[0])
    else First(offers[1..], need)
  }

  // ---- What the choice means

  predicate Supported(names: seq<Name>, table: seq<Method>) {
    forall i :: 0 <= i < |names| ==> ByName(table, names[i]).Some?
  }

  /** Client name `k` is one that both sides know and that meets the need. */
  predicate Agrees(names: seq<Name>, table: seq<Method>, server: seq<Name>, need: Need, k: nat)
    requires Supported(names, table) && k < |names|
  {
    names[k] in server && Meets(need, ByName(table, names[k]).value)
  }

  /**
   The result is the method of the first client name that agrees, and there is
   none exactly when no client name agrees.
   */
  ghost predicate IsChoice(names: seq<Name>, table: seq<Method>, server: seq<Name>, need: Need, r: Option<Method>)
    requires Supported(names, table)
  {
    && (r.None? <==> forall k :: 0 <= k < |names| ==> !Agrees(names, table, server, need, k))
    && (r.Some? ==> exists k :: 0 <= k < |names| && Agrees(names, table, server, need, k)
                                && r == ByName(table, names[k])
                                && forall j :: 0 <= j < k ==> !Agrees(names, table, server, need, j))
  }

  lemma {:induction false} ChoiceIsFirst(names: seq<Name>, table: seq<Method>, server: seq<Name>, need: Need)
    requires Supported(names, table)
    ensures IsChoice(names, table, server, need, First(Offers(names, table, server), need))
  {
    if names != [] {
      var rest := names[1..];
      ChoiceIsFirst(rest, table, server, need);
      var r, r' := First(Offers(names, table, server), need), First(Offers(rest, table, server), need);
      var here := Agrees(names, table, server, need, 0);
      assert names[0] in server ==> Offers(names, table, server)[1..] == Offers(rest, table, server);
      assert r == if here then ByName(table, names[0]) else r';
      assert forall k :: 0 <= k < |rest| ==> rest[k] == names[k + 1];
      assert forall k :: 0 <= k < |rest| ==>
               Agrees(rest, table, server, need, k) == Agrees(names, table, server, need, k + 1);
      if !here && r'.Some? {
        var k :| 0 <= k < |rest| && Agrees(rest, table, server, need, k) && r' == ByName(table, rest[k])
                 && forall j :: 0 <= j < k ==> !Agrees(rest, table, server, need, j);
        assert Agrees(names, table, server, need, k + 1);
        forall j | 0 <= j < k + 1
          ensures !Agrees(names, table, server, need, j)
        {
          assert j > 0 ==> Agrees(rest, table, server, need, j - 1) == Agrees(names, table, server, need, j);
        }
      } else if !here {
        forall k | 0 <= k < |names|
          ensures !Agrees(names, table, server, need, k)
        {
          assert k > 0 ==> Agrees(rest, table, server, need, k - 1) == Agrees(names, table, server, need, k);
        }
      }
    }
  }

  // ---- Names that the client does not support

  /** The client name is one that both sides know and that meets the need. */
  predicate Suits(name: Name, table: seq<Method>, server: seq<Name>, need: Need) {
    name in server && ByName(table, name).Some? && Meets(need, ByName(table, name).value)
  }

  /** The first client name that suits, whatever stands before it. */
  function FirstSuiting(names: seq<Name>, table: seq<Method>, server: seq<Name>, need: Need): Option<Method> {
    if names == [] then None
    else if Suits(names[0], table, server, need) then ByName(table, names[0])
    else FirstSuiting(names[1..], table, server, need)
  }

  /** Before the first client name that suits stands one that the server lists and the client does not support. */
  predicate CutOff(names: seq<Name>, table: seq<Method>, server: seq<Name>, need: Need) {
    if names == [] || Suits(names[0], table, server, need) then false
    else if names[0] in server && ByName(table, names[0]).None?
    then FirstSuiting(names[1..], table, server, need).Some?
    else CutOff(names[1..], table, server, need)
  }

  /**
   For any names, the search finds the first one that suits if and only if it is
   not cut off by an unsupported name before it; if it is, it finds nothing.
   */
  lemma {:induction false} ChoiceExactly(names: seq<Name>, table: seq<Method>, server: seq<Name>, need: Need)
    ensures var r := First(Offers(names, table, server), need);
            && (r == FirstSuiting(names, table, server, need) <==> !CutOff(names, table, server, need))
            && (CutOff(names, table, server, need) ==> r == None)
  {
    if names != [] {
      var rest := Offers(names[1..], table, server);
      ChoiceExactly(names[1..], table, server, need);
      if names[0] in server && ByName(table, names[0]).Some? {
        assert ([ByName(table, names[0]).value] + rest)[1..] == rest;
      }
    }
  }

  /** An unsupported name that the server lists hides a supported one behind it. */
  lemma {:induction false} UnsupportedHides(x: Name, m: Method)
    requires x != m.name
    ensures First(Offers([x, m.name], [m], [x, m.name]), Any) == None
    ensures FirstSuiting([x, m.name], [m], [x, m.name], Any) == Some(m)
  {
    assert [x, m.name][1..] == [m.name] && [m][1..] == [] && [m][0] == m;
    assert ByName([m], x) == None && ByName([m], m.name) == Some(m);
  }

  // ---- A preference string that spells the table changes nothing

  function TableNames(table: seq<Method>): (names: seq<Name>)
    ensures |names| == |table|
    ensures forall i :: 0 <= i < |table| ==> names[i] == table[i].name
  {
    seq(|table|, i requires 0 <= i < |table| => table[i].name)
  }

  /** A method table as the library has them: proper names, none twice. */
  predicate GoodTable(table: seq<Method>) {
    && GoodNames(TableNames(table))
    && forall i, j :: 0 <= i < j < |table| ==> table[i].name != table[j].name
  }

  lemma {:induction false} PrefNamesOfJoin(pre: Name, names: seq<Name>)
    requires GoodNames(names)
    ensures PrefNames(pre + Join(names), |pre|) == names
    decreases |names|
  {
    hide NextComma;
    if names != [] {
      hide Join;
      assert GoodName(names[0]);
      HeadOfJoin(pre, names);
      if |names| > 1 {
        PrefNamesOfJoin(pre + names[0] + [COMMA], names[1..]);
        assert names == [names[0]] + names[1..];
      }
    }
  }

  lemma {:induction false} ByNameInTable(table: seq<Method>, i: nat)
    requires GoodTable(table) && i < |table|
    ensures ByName(table, table[i].name) == Some(table[i])
  {
    if i > 0 {
      GoodTail(table);
      ByNameInTable(table[1..], i - 1);
    }
  }

  lemma {:induction false} GoodTail(table: seq<Method>)
    requires GoodTable(table) && table != []
    ensures GoodTable(table[1..])
  {
    assert forall i :: 0 <= i < |table| - 1 ==> TableNames(table[1..])[i] == TableNames(table)[i + 1];
  }

  lemma {:induction false} OffersFrom(table: seq<Method>, i: nat, server: seq<Name>)
    requires GoodTable(table) && i <= |table|
    ensures Offers(TableNames(table)[i..], table, server) == TableOffers(table[i..], server)
    decreases |table| - i
  {
    if i < |table| {
      ByNameInTable(table, i);
      assert TableNames(table)[i..][1..] == TableNames(table)[i + 1..];
      assert table[i..][1..] == table[i + 1..];
      OffersFrom(table, i + 1, server);
    }
  }

  /**
   For every server list, negotiating from the table and negotiating with the
   table's names joined by commas offer the same methods in the same order, so
   all five negotiators choose alike.
   */
  lemma {:induction false} TableEqualsPreferences(table: seq<Method>, server: Name)
    requires GoodTable(table)
    ensures Offered(Some(Join(TableNames(table))), table, server) == Offered(None, table, server)
  {
    var names := TableNames(table);
    PrefNamesOfJoin([], names);
    assert [] + Join(names) == Join(names);
    OffersFrom(table, 0, Names(server));
    assert names[0..] == names && table[0..] == table;
  }

  /** The names that the client wants, in its order. */
  function Wanted(prefs: Option<Name>, table: seq<Method>): seq<Name> {
    if prefs.Some? then PrefNames(prefs.value, 0) else TableNames(table)
  }

  lemma {:induction false} OfferedByNames(prefs: Option<Name>, table: seq<Method>, server: Name)
    requires GoodTable(table)
    ensures Offered(prefs, table, server) == Offers(Wanted(prefs, table), table, Names(server))
    ensures prefs.None? ==> Supported(Wanted(prefs, table), table)
  {
    OffersFrom(table, 0, Names(server));
    assert TableNames(table)[0..] == TableNames(table) && table[0..] == table;
    forall i | 0 <= i < |table|
      ensures ByName(table, TableNames(table)[i]).Some?
    {
      ByNameInTable(table, i);
    }
  }

  /**
   What a negotiator arrives at, by preference string or by table, is the first
   method that it wants, the server lists and the need admits.
   */
  lemma {:induction false} Negotiated(prefs: Option<Name>, table: seq<Method>, server: Name, need: Need)
    requires GoodTable(table) && Supported(Wanted(prefs, table), table)
    ensures IsChoice(Wanted(prefs, table), table, Names(server), need, First(Offered(prefs, table, server), need))
  {
    hide IsChoice, Offered, Wanted, Offers, First, GoodTable, Supported;
    OfferedByNames(prefs, table, server);
    ChoiceIsFirst(Wanted(prefs, table), table, Names(server), need);
  }

  // ---- The choice, spelled out

  lemma {:induction false} OfferIsKnown(names: seq<Name>, table: seq<Method>, server: seq<Name>, m: Method)
    requires m in Offers(names, table, server)
    ensures m in table && m.name in server && m.name in names
  {
    if names[0] in server && ByName(table, names[0]) == Some(m) {
    } else {
      OfferIsKnown(names[1..], table, server, m);
    }
  }

  /** What is chosen is in the table, wanted, and listed by the server. */
  lemma {:induction false} ChoiceIsKnown(prefs: Option<Name>, table: seq<Method>, server: Name, need: Need)
    requires GoodTable(table)
    ensures var m := First(Offered(prefs, table, server), need);
            m.Some? ==> m.value in table && m.value.name in Wanted(prefs, table) && m.value.name in Names(server)
  {
    hide Offers, GoodTable, Wanted, Offered, Meets;
    OfferedByNames(prefs, table, server);
    var m := First(Offered(prefs, table, server), need);
    if m.Some? {
      OfferIsKnown(Wanted(prefs, table), table, Names(server), m.value);
    }
  }

  /** With supported names only, nothing is chosen just where no wanted name that the server lists will do. */
  lemma {:induction false} NoChoice(prefs: Option<Name>, table: seq<Method>, server: Name, need: Need, name: Name)
    requires GoodTable(table) && Supported(Wanted(prefs, table), table)
    requires First(Offered(prefs, table, server), need).None? && name in Wanted(prefs, table) && name in Names(server)
    ensures ByName(table, name).Some? && !Meets(need, ByName(table, name).value)
  {
    hide GoodTable, Wanted, Offered, Meets, First;
    Negotiated(prefs, table, server, need);
    var i :| 0 <= i < |Wanted(prefs, table)| && Wanted(prefs, table)[i] == name;
    assert !Agrees(Wanted(prefs, table), table, Names(server), need, i);
  }

  /** A host key that the client wants and the server lists, and that can do what the key exchange requires of it. */
  lemma {:induction false} HostkeyChoice(prefs: Option<Name>, table: seq<Method>, server: Name, k: Method)
    requires GoodTable(table)
    ensures var h := First(Offered(prefs, table, server), HostKey(k.encrypt, k.sign));
            && (h.Some? ==>
                  && h.value in table && h.value.name in Wanted(prefs, table) && h.value.name in Names(server)
                  && (k.encrypt ==> h.value.encrypt) && (k.sign ==> h.value.sign))
            && (h.None? && Supported(Wanted(prefs, table), table) ==>
                  forall n :: n in Wanted(prefs, table) && n in Names(server) ==>
                    && ByName(table, n).Some?
                    && ((k.encrypt && !ByName(table, n).value.encrypt) || (k.sign && !ByName(table, n).value.sign)))
  {
    hide GoodTable, Wanted, Offered, Names, Supported;
    var h := First(Offered(prefs, table, server), HostKey(k.encrypt, k.sign));
    ChoiceIsKnown(prefs, table, server, HostKey(k.encrypt, k.sign));
    if h.None? && Supported(Wanted(prefs, table), table) {
      forall n | n in Wanted(prefs, table) && n in Names(server)
        ensures ByName(table, n).Some? && !Meets(HostKey(k.encrypt, k.sign), ByName(table, n).value)
      {
        NoChoice(prefs, table, server, HostKey(k.encrypt, k.sign), n);
      }
    }
  }

  /**
   A key exchange method is left out only where no host key, wanted and listed by
   the server, can do what it requires.
   */
  lemma {:induction false} NoExchange(prefs: Option<Name>, table: seq<Method>, server: Name,
                                      keyPrefs: Option<Name>, keyTable: seq<Method>, keyServer: Name, n: Name, x: Name)
    requires GoodTable(table) && Supported(Wanted(prefs, table), table)
    requires GoodTable(keyTable) && Supported(Wanted(keyPrefs, keyTable), keyTable)
    requires First(Offered(prefs, table, server), Exchange(Offered(keyPrefs, keyTable, keyServer))).None?
    requires n in Wanted(prefs, table) && n in Names(server)
    requires x in Wanted(keyPrefs, keyTable) && x in Names(keyServer)
    ensures ByName(table, n).Some? && ByName(keyTable, x).Some?
    ensures var k, h := ByName(table, n).value, ByName(keyTable, x).value;
            (k.encrypt && !h.encrypt) || (k.sign && !h.sign)
  {
    hide GoodTable, Wanted, Offered, Names, Supported, First;
    NoChoice(prefs, table, server, Exchange(Offered(keyPrefs, keyTable, keyServer)), n);
    HostkeyChoice(keyPrefs, keyTable, keyServer, ByName(table, n).value);
  }
}
