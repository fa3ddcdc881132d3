/**
 The KEXINIT packet of section 7.1 of RFC 4253: how it is filled, list by
 list, and how its name lists are found again.
 */
module KexInit {
  import opened Bytes
  import opened NameList

  const SSH_MSG_KEXINIT: byte := 20

  const TWO_64 := 0x1_0000_0000_0000_0000

  /** A name list to send: a preference string, or the names of a method table. */
  datatype ListSource = Prefs(list: Name) | Table(names: seq<Name>)

  function ListText(l: ListSource): Name {
    match l
    case Prefs(p) => p
    case Table(names) => Join(names)
  }

  /** Total length of the first lists, with their length fields. */
  function ListsSize(lists: seq<ListSource>): nat {
    if lists == [] then 0 else 4 + |ListText(lists[0])| + ListsSize(lists[1..])
  }

  /** Total length of the lists alone. */
  function TextSize(lists: seq<ListSource>): nat {
    if lists == [] then 0 else |ListText(lists[0])| + TextSize(lists[1..])
  }

  lemma {:induction false} SizeByText(lists: seq<ListSource>)
    ensures ListsSize(lists) == 4 * |lists| + TextSize(lists)
  {
    if lists != [] {
      SizeByText(lists[1..]);
    }
  }

  predicate Sendable(lists: seq<ListSource>) {
    && |lists| == 10
    && forall i :: 0 <= i < 10 ==> |ListText(lists[i])| < TWO_32
  }

  /** The lists as `string` fields, one after the other. */
  function Fields(lists: seq<ListSource>): (s: seq<byte>)
    requires forall i :: 0 <= i < |lists| ==> |ListText(lists[i])| < TWO_32
    ensures |s| == ListsSize(lists)
  {
    if lists == [] then [] else Str(ListText(lists[0])) + Fields(lists[1..])
  }

  /** The whole packet. */
  function Packet(cookie: seq<byte>, lists: seq<ListSource>): (s: seq<byte>)
    requires |cookie| == 16 && Sendable(lists)
    ensures |s| == 22 + ListsSize(lists)
  {
    [SSH_MSG_KEXINIT] + cookie + Fields(lists) + [0] + U32(0)
  }

  /** Length of the joined names, counted without joining them. */
  method MethodStrLen(names: seq<Name>) returns (len: nat)
    ensures len == |Join(names)|
  {
    if names == [] {
      return 0;
    }
    len := 0;
    var i := 0;
    while i < |names|
      invariant 0 <= i <= |names|
      invariant i < |names| ==> len + |Join(names[i..])| == |Join(names)|
      invariant i == |names| ==> len - 1 == |Join(names)|
    {
      assert names[i..][1..] == names[i + 1..];
      len := len + |names[i]| + 1;
      i := i + 1;
    }
    len := len - 1;
  }

  /** Names with a comma after each, the last one too. */
  function Trailing(names: seq<Name>): Name {
    if names == [] then [] else names[0] + [COMMA] + Trailing(names[1..])
  }

  lemma {:induction false} TrailingIsJoin(names: seq<Name>)
    requires names != []
    ensures Trailing(names) == Join(names) + [COMMA]
  {
    if |names| > 1 {
      TrailingIsJoin(names[1..]);
      assert names[0] + [COMMA] + (Join(names[1..]) + [COMMA]) == names[0] + [COMMA] + Join(names[1..]) + [COMMA];
    } else {
      assert names[0] + [COMMA] + [] == names[0] + [COMMA];
    }
  }

  /**
   Fills in a list from a table.  A comma is written after every name; the one
   after the last name lies past the field and is overwritten by what follows.
   */
  method MethodList(buf: array<byte>, s: nat, len: nat, names: seq<Name>) returns (next: nat)
    requires len == |Join(names)| < TWO_32
    requires s + 4 + len < buf.Length
    modifies buf
    ensures next == s + 4 + len
    ensures buf[..next] == old(buf[..s]) + Str(Join(names))
  {
    ghost var before := buf[..s];
    var p := StoreU32(buf, s, len);
    if names == [] {
      assert before + U32(0) == before + (U32(0) + Join([]));
      return p;
    }
    TrailingIsJoin(names);
    ghost var head := before + U32(len);
    var i := 0;
    while i < |names|
      invariant 0 <= i <= |names| && p + |Trailing(names[i..])| == s + 4 + len + 1
      invariant buf[..p] + Trailing(names[i..]) == head + Trailing(names)
    {
      assert names[i..][1..] == names[i + 1..];
      ghost var done := buf[..p];
      p := Copy(buf, p, names[i]);
      p := Copy(buf, p, [COMMA]);
      i := i + 1;
      assert buf[..p] + Trailing(names[i..]) == done + (names[i - 1] + [COMMA] + Trailing(names[i..]));
    }
    next := len + s + 4;
    assert buf[..p] == head + (Join(names) + [COMMA]);
    assert buf[..next] == buf[..p][..next];
    assert head + Join(names) == before + Str(Join(names));
  }

  /** One list: its length field and its text. */
  method StoreList(buf: array<byte>, s: nat, l: ListSource, len: nat) returns (next: nat)
    requires len == |ListText(l)| < TWO_32 && s + 4 + len < buf.Length
    modifies buf
    ensures next == s + 4 + len
    ensures buf[..next] == old(buf[..s]) + Str(ListText(l))
  {
    match l {
      case Prefs(p) => next := StoreStr(buf, s, p);
      case Table(names) => next := MethodList(buf, s, len, names);
    }
  }

  method ListLength(l: ListSource) returns (len: nat)
    ensures len == |ListText(l)|
  {
    match l {
      case Prefs(p) => len := |p|;
      case Table(names) => len := MethodStrLen(names);
    }
  }

  lemma {:induction false} TextSizeSnoc(lists: seq<ListSource>, i: nat)
    requires i < |lists|
    ensures TextSize(lists[..i + 1]) == TextSize(lists[..i]) + |ListText(lists[i])|
  {
    if i > 0 {
      assert lists[..i + 1][1..] == lists[1..][..i] && lists[..i][1..] == lists[1..][..i - 1];
      TextSizeSnoc(lists[1..], i - 1);
    } else {
      assert lists[..1][1..] == [] && lists[..0] == [];
    }
  }

  /** Fields of lists taken one by one. */
  lemma {:induction false} FieldsSnoc(lists: seq<ListSource>, i: nat)
    requires i < |lists| && forall k :: 0 <= k < |lists| ==> |ListText(lists[k])| < TWO_32
    ensures Fields(lists[..i + 1]) == Fields(lists[..i]) + Str(ListText(lists[i]))
  {
    if i > 0 {
      assert lists[..i + 1][1..] == lists[1..][..i] && lists[..i][1..] == lists[1..][..i - 1];
      FieldsSnoc(lists[1..], i - 1);
    } else {
      assert lists[..1][1..] == [] && lists[..0] == [];
    }
  }

  lemma {:induction false} FieldsSplit(lists: seq<ListSource>, i: nat)
    requires i <= |lists| && forall k :: 0 <= k < |lists| ==> |ListText(lists[k])| < TWO_32
    ensures Fields(lists) == Fields(lists[..i]) + Fields(lists[i..])
  {
    if i > 0 {
      assert lists[..i][1..] == lists[1..][..i - 1] && lists[1..][i - 1..] == lists[i..];
      FieldsSplit(lists[1..], i - 1);
    } else {
      assert lists[..0] == [] && lists[0..] == lists;
    }
  }

  /** Measures every list; the fixed parts and the length fields take 62 octets. */
  method Measure(lists: seq<ListSource>) returns (lens: seq<nat>, dataLen: nat)
    ensures |lens| == |lists| && forall k :: 0 <= k < |lists| ==> lens[k] == |ListText(lists[k])|
    ensures dataLen == 62 + TextSize(lists)
  {
    lens, dataLen := [], 62;
    for i := 0 to |lists|
      invariant |lens| == i && forall k :: 0 <= k < i ==> lens[k] == |ListText(lists[k])|
      invariant dataLen == 62 + TextSize(lists[..i])
    {
      TextSizeSnoc(lists, i);
      var len := ListLength(lists[i]);
      lens := lens + [len];
      dataLen := dataLen + len;
    }
    assert lists[..|lists|] == lists;
  }

  /** Fills in all lists; at least one octet must follow them. */
  method StoreLists(data: array<byte>, from: nat, lists: seq<ListSource>, lens: seq<nat>) returns (s: nat)
    requires Sendable(lists) && |lens| == 10 && forall k :: 0 <= k < 10 ==> lens[k] == |ListText(lists[k])|
    requires from + |Fields(lists)| < data.Length
    modifies data
    ensures s == from + |Fields(lists)| && data[..s] == old(data[..from]) + Fields(lists)
  {
    hide ListsSize, ListText, Join;
    ghost var head := data[..from];
    s := from;
    for i := 0 to 10
      invariant s == from + |Fields(lists[..i])| < data.Length
      invariant data[..s] == head + Fields(lists[..i])
    {
      FieldsSnoc(lists, i);
      FieldsSplit(lists, i + 1);
      s := StoreList(data, s, lists[i], lens[i]);
    }
    assert lists[..10] == lists;
  }

  /**
   Builds the packet in a buffer of 62 octets plus the list lengths: the buffer
   is filled exactly, and no trailing comma is left in it.
   */
  method Build(cookie: seq<byte>, lists: seq<ListSource>) returns (data: array<byte>)
    requires |cookie| == 16 && Sendable(lists)
    ensures fresh(data) && data.Length == 62 + TextSize(lists)
    ensures data[..] == Packet(cookie, lists)
    ensures data[0] == 20 && data[1..17] == cookie && data[17..data.Length - 5] == Fields(lists)
    ensures data[data.Length - 5..] == [0, 0, 0, 0, 0]
  {
    hide ListsSize, ListText, Fields, TextSize, Packet, Sendable;
    data := Fill(cookie, lists);
    Frame(cookie, lists, data[..]);
  }

  method Fill(cookie: seq<byte>, lists: seq<ListSource>) returns (data: array<byte>)
    requires |cookie| == 16 && Sendable(lists)
    ensures fresh(data) && data.Length == 62 + TextSize(lists)
    ensures data[..] == Packet(cookie, lists)
  {
    hide ListsSize, ListText, Fields, TextSize;
    var lens, dataLen := Measure(lists);
    SizeByText(lists);
    data := new byte[dataLen](_ => 0);
    data[0] := SSH_MSG_KEXINIT;
    var s := Copy(data, 1, cookie);
    assert data[..s] == [SSH_MSG_KEXINIT] + cookie;
    s := StoreLists(data, s, lists, lens);
    s := Copy(data, s, [0]);
    s := StoreU32(data, s, 0);
    assert data[..s] == data[..];
  }

  /** What stands around the lists: the message number and the cookie, no guessed packet, and a reserved zero. */
  lemma {:induction false} Frame(cookie: seq<byte>, lists: seq<ListSource>, data: seq<byte>)
    requires |cookie| == 16 && Sendable(lists) && data == Packet(cookie, lists)
    ensures |data| >= 22 && data[0] == 20 && data[1..17] == cookie && data[17..|data| - 5] == Fields(lists)
    ensures data[|data| - 5..] == [0, 0, 0, 0, 0]
  {
    hide Fields, ListText;
    assert U32(0) == [0, 0, 0, 0];
  }

  // ---- Finding the lists again

  /** A list found in a packet, and the position after it. */
  datatype Found = Found(list: Name, next: nat)

  /** The `string` field at `s`, if it ends within the packet. */
  function ReadField(data: seq<byte>, s: nat): (r: Option<Found>)
    requires s + 4 <= |data|
    ensures r.Some? ==> s + 4 <= r.value.next <= |data| && |r.value.list| < TWO_32
    ensures r.Some? ==> data[s..r.value.next] == Str(r.value.list)
  {
    var len := NtohU32(data[s..]);
    if len > |data| - s - 4 then None
    else
      U32Injective(data[s..s + 4]);
      assert data[s..s + 4 + len] == data[s..s + 4] + data[s + 4..s + 4 + len];
      Some(Found(data[s + 4..s + 4 + len], s + 4 + len))
  }

  /** The octet at a place in memory: of the packet, or of what lies behind it. */
  function Octet(data: seq<byte>, past: nat -> byte, i: nat): byte {
    if i < |data| then data[i] else past(i - |data|)
  }

  /**
   Takes a string out of a packet and checks that it fits.  Where the length field
   itself runs off the packet, the check compares with a difference that has
   wrapped in 64 bits, and the cursor only gets further away.
   */
  method StringPair(data: seq<byte>, past: nat -> byte, s: nat) returns (r: Option<Found>)
    ensures s + 4 <= |data| ==> r == ReadField(data, s)
    ensures s + 4 <= |data| ==> (r.None? <==> NtohU32(data[s..]) > |data| - s - 4)
    ensures s + 4 > |data| && r.Some? ==> r.value.next > |data|
  {
    var field := Memory(data, past, s, 4);
    var len := NtohU32(field);
    // An unsigned difference: below zero it wraps.
    var room := if s + 4 <= |data| then |data| - s - 4 else TWO_64 - (s + 4 - |data|);
    if s + 4 <= |data| {
      NtohOfPrefix(data[s..], field);
    }
    if len > room {
      return None;
    }
    return Some(Found(Memory(data, past, s + 4, len), s + 4 + len));
  }

  /** A stretch of memory. */
  function Memory(data: seq<byte>, past: nat -> byte, s: nat, n: nat): (r: seq<byte>)
    ensures |r| == n && (s + n <= |data| ==> r == data[s..s + n])
  {
    if n == 0 then [] else Memory(data, past, s, n - 1) + [Octet(data, past, s + n - 1)]
  }

  lemma {:induction false} NtohOfPrefix(s: seq<byte>, field: seq<byte>)
    requires |s| >= 4 && field == s[..4]
    ensures NtohU32(s) == NtohU32(field)
  {
    assert field[0] == s[0] && field[1] == s[1] && field[2] == s[2] && field[3] == s[3];
  }

  /** A field is read back whatever stands before and after it. */
  lemma {:induction false} ReadFieldBack(pre: seq<byte>, list: Name, post: seq<byte>)
    requires |list| < TWO_32
    ensures ReadField(pre + Str(list) + post, |pre|) == Some(Found(list, |pre| + |Str(list)|))
  {
    var data := pre + Str(list) + post;
    assert data[|pre|..] == U32(|list|) + (list + post);
    U32RoundTrip(|list|, list + post);
    assert data[|pre| + 4..|pre| + 4 + |list|] == list;
  }

  /** Every length field that is read lies within the packet. */
  predicate Readable(data: seq<byte>, s: nat, count: nat)
    decreases count
  {
    count > 0 ==>
      && s + 4 <= |data|
      && (ReadField(data, s).Some? ==> Readable(data, ReadField(data, s).value.next, count - 1))
  }

  /** The next `count` lists of a packet, or none when one does not fit. */
  function ReadLists(data: seq<byte>, s: nat, count: nat): (r: Option<(seq<Name>, nat)>)
    requires Readable(data, s, count)
    ensures r.Some? ==> |r.value.0| == count && (count > 0 ==> r.value.1 <= |data|)
    decreases count
  {
    if count == 0 then Some(([], s)) else
    match ReadField(data, s)
    case None => None
    case Some(f) =>
      match ReadLists(data, f.next, count - 1)
      case None => None
      case Some((rest, next)) => Some(([f.list] + rest, next))
  }

  function Texts(lists: seq<ListSource>): (r: seq<Name>)
    ensures |r| == |lists|
  {
    if lists == [] then [] else [ListText(lists[0])] + Texts(lists[1..])
  }

  /** Lists that were filled in one after the other are read back in order. */
  lemma {:induction false} ReadListsBack(pre: seq<byte>, lists: seq<ListSource>, post: seq<byte>)
    requires forall i :: 0 <= i < |lists| ==> |ListText(lists[i])| < TWO_32
    ensures var data := pre + Fields(lists) + post;
            && Readable(data, |pre|, |lists|)
            && ReadLists(data, |pre|, |lists|) == Some((Texts(lists), |pre| + |Fields(lists)|))
    decreases |lists|
  {
    hide ListText, Join, ListsSize, ReadField, Str;
    if lists != [] {
      var text := ListText(lists[0]);
      var rest := Fields(lists[1..]);
      var data := pre + Fields(lists) + post;
      assert data == pre + Str(text) + (rest + post);
      ReadFieldBack(pre, text, rest + post);
      assert data == (pre + Str(text)) + rest + post;
      ReadListsBack(pre + Str(text), lists[1..], post);
      assert |Fields(lists)| == |Str(text)| + |rest|;
    }
  }

  /** The eight lists of a packet that was built are the eight that were put in. */
  lemma {:induction false} KexInitRoundTrip(cookie: seq<byte>, lists: seq<ListSource>)
    requires |cookie| == 16 && Sendable(lists)
    ensures var data := Packet(cookie, lists);
            && Readable(data, 17, 8)
            && ReadLists(data, 17, 8) == Some((Texts(lists[..8]), 17 + |Fields(lists[..8])|))
  {
    hide Fields, ListText, Join, ListsSize, Readable, ReadLists;
    var pre := [SSH_MSG_KEXINIT] + cookie;
    var post := Fields(lists[8..]) + [0] + U32(0);
    FieldsSplit(lists, 8);
    ReadListsBack(pre, lists[..8], post);
    assert Packet(cookie, lists) == pre + Fields(lists[..8]) + post;
  }
}
