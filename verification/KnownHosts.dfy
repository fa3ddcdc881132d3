/**
 The known-hosts collection: adding entries, looking a host and its key up,
 reading and writing lines.
 */
module KnownHosts {
  import opened Bytes
  import opened KnownHostLine
  import Base64

  /** Keyed hash of a host name, as the crypto library computes it. */
  type Hmac = (seq<byte>, string) -> seq<byte>

  const SHA_DIGEST_LENGTH := 20

  const FILE_OPENSSH := 1

  /** The name form that a query states. */
  datatype Form = PlainForm | CustomForm | Sha1Form | OtherForm

  datatype Verdict = Match | Mismatch | NotFound | Failure

  /** A key as passed in: base64 text, or raw octets to be encoded. */
  datatype KeyArg = TextKey(text: string, keylen: nat) | RawKey(data: seq<byte>, keylen: nat)

  /** What C demands of a key argument. */
  predicate ValidKeyArg(key: KeyArg) {
    match key
    case TextKey(text, n) => n <= |text|
    case RawKey(data, n) => n <= |data| && (n == 0 ==> 0 in data)
  }

  /** The base64 text of a key argument; a length of zero means the whole C string. */
  function KeyArgText(key: KeyArg): string
    requires ValidKeyArg(key)
  {
    match key
    case TextKey(text, n) => if n == 0 then text else text[..n]
    case RawKey(data, n) => Base64.Encoded(data[..if n == 0 then Base64.StrLen(data) else n])
  }

  /** The key text that a lookup compares with; it takes a text whole, whatever its length argument. */
  function SearchedKey(key: KeyArg): string
    requires ValidKeyArg(key)
  {
    if key.TextKey? then key.text else KeyArgText(key)
  }

  function Decimal(n: nat): (s: string)
    ensures |s| > 0
  {
    var digit := ['0' + (n % 10) as char];
    if n < 10 then digit else Decimal(n / 10) + digit
  }

  predicate IsDigit(c: char) { '0' <= c <= '9' }

  function DigitOf(c: char): nat
    requires IsDigit(c)
  {
    c as int - '0' as int
  }

  /** A decimal numeral: digits, and no leading zero unless it is the only digit. */
  predicate Numeral(s: string) {
    s != "" && (forall i :: 0 <= i < |s| ==> IsDigit(s[i])) && (s[0] == '0' ==> |s| == 1)
  }

  /** The number that digits spell, read from left to right. */
  function Value(s: string, sofar: nat := 0): nat
    requires forall i :: 0 <= i < |s| ==> IsDigit(s[i])
  {
    if s == "" then sofar else Value(s[1..], 10 * sofar + DigitOf(s[0]))
  }

  lemma {:induction false} ValueSnoc(s: string, c: char, sofar: nat)
    requires IsDigit(c) && forall i :: 0 <= i < |s| ==> IsDigit(s[i])
    ensures Value(s + [c], sofar) == 10 * Value(s, sofar) + DigitOf(c)
  {
    if s == "" {
      assert (s + [c])[1..] == "" && s + [c] == [c];
    } else {
      assert (s + [c])[1..] == s[1..] + [c];
      ValueSnoc(s[1..], c, 10 * sofar + DigitOf(s[0]));
    }
  }

  /** Printing a number gives a numeral of that value, which is not zero-padded. */
  lemma {:induction false} DecimalIsNumeral(n: nat)
    ensures Numeral(Decimal(n)) && Value(Decimal(n)) == n
    ensures n > 0 ==> Decimal(n)[0] != '0'
  {
    var digit := '0' + (n % 10) as char;
    assert IsDigit(digit);
    if n < 10 {
      assert "" + [digit] == [digit];
      ValueSnoc("", digit, 0);
    } else {
      DecimalIsNumeral(n / 10);
      ValueSnoc(Decimal(n / 10), digit, 0);
    }
  }

  /** There is no other numeral of that value. */
  lemma {:induction false} NumeralIsDecimal(s: string)
    requires Numeral(s)
    ensures Decimal(Value(s)) == s && (s[0] != '0' ==> Value(s) > 0)
  {
    var front, last := s[..|s| - 1], s[|s| - 1];
    assert s == front + [last];
    ValueSnoc(front, last, 0);
    if front != "" {
      NumeralIsDecimal(front);
    }
  }

  /** An entry under `[host]:port` with the type and the key that are looked for. */
  predicate IsFor(e: Entry, host: string, port: string, keyType: KeyType, key: KeyArg)
    requires ValidKeyArg(key)
  {
    e.name == Plain("[" + host + "]:" + port) && e.keyType == keyType && e.key == SearchedKey(key)
  }

  /** An entry answers for a name: it is that name or its hash, and its key type is the one asked for. */
  ghost predicate AnswersFor(hmac: Hmac, form: Form, keyType: KeyType, name: string, e: Entry) {
    && (|| (form == PlainForm && e.name == Plain(name))
        || (form == CustomForm && e.name == Custom(name))
        || (form == PlainForm && e.name.Sha1? && |e.name.hash| == 20 && hmac(e.name.salt, name) == e.name.hash))
    && (keyType == e.keyType || keyType == NoKey) && keyType != UnknownKey
  }

  /** The first entry that answers for a name, with a key if one is given. */
  ghost predicate FirstFor(hmac: Hmac, form: Form, keyType: KeyType, name: string, key: Option<string>,
                           entries: seq<Entry>, i: nat) {
    && i < |entries| && AnswersFor(hmac, form, keyType, name, entries[i]) && (key.Some? ==> entries[i].key == key.value)
    && forall j :: 0 <= j < i ==>
         !(AnswersFor(hmac, form, keyType, name, entries[j]) && (key.Some? ==> entries[j].key == key.value))
  }

  /** The name forms to try, in order: `[host]:port` first when a port is given. */
  function NameForms(host: string, port: int): (forms: seq<string>)
    ensures 1 <= |forms| <= 2
  {
    if port >= 0 then ["[" + host + "]:" + Decimal(port), host] else [host]
  }

  predicate NameMatches(hmac: Hmac, form: Form, host: string, e: Entry) {
    match e.name
    case Plain(n) => form == PlainForm && n == host
    case Custom(n) => form == CustomForm && n == host
    case Sha1(hash, salt) => form == PlainForm && |hash| == SHA_DIGEST_LENGTH && hmac(salt, host) == hash
  }

  /** An unknown key type never matches; no key type matches any. */
  predicate TypeMatches(keyType: KeyType, e: Entry) {
    keyType != UnknownKey && (keyType == NoKey || keyType == e.keyType)
  }

  /** A query, once its forms and its key text are known. */
  datatype Query = Query(hmac: Hmac, form: Form, names: seq<string>, key: string, keyType: KeyType) {
    /** Entry `e` answers for name form `f`. */
    predicate Hit(f: nat, e: Entry)
      requires f < |names|
    {
      NameMatches(hmac, form, names[f], e) && TypeMatches(keyType, e)
    }

    ghost predicate Known(e: Entry) {
      exists f :: 0 <= f < |names| && Hit(f, e)
    }
  }

  /** What the lookup is for, with no mention of order. */
  ghost function VerdictOf(q: Query, entries: seq<Entry>): Verdict {
    if exists e :: e in entries && q.Known(e) && e.key == q.key then Match
    else if exists e :: e in entries && q.Known(e) then Mismatch
    else NotFound
  }

  /** Position (form, index) is the first one, form by form, with the property. */
  ghost predicate FirstAt(q: Query, entries: seq<Entry>, sameKey: bool, f: nat, i: nat) {
    && f < |q.names| && i < |entries| && q.Hit(f, entries[i]) && (sameKey ==> entries[i].key == q.key)
    && forall g, j :: 0 <= g < |q.names| && 0 <= j < |entries| && (g < f || (g == f && j < i)) ==>
                        !(q.Hit(g, entries[j]) && (sameKey ==> entries[j].key == q.key))
  }

  /** Entry `i` is the first one in (name form, list) order with the property. */
  ghost predicate FirstEntry(q: Query, entries: seq<Entry>, sameKey: bool, i: nat) {
    exists f :: FirstAt(q, entries, sameKey, f, i)
  }

  /** The verdict does not depend on the order of the entries. */
  lemma {:induction false} VerdictIgnoresOrder(q: Query, a: seq<Entry>, b: seq<Entry>)
    requires multiset(a) == multiset(b)
    ensures VerdictOf(q, a) == VerdictOf(q, b)
  {
    forall e
      ensures e in a <==> e in b
    {
      assert e in a <==> e in multiset(a);
      assert e in b <==> e in multiset(b);
    }
  }

  /** A line with one plain host name, a type name and a key, and nothing else. */
  predicate SimpleLine(line: string, host: string, typeName: string, key: string) {
    && line == host + " " + typeName + " " + key + "\n"
    && WritableName(Plain(host)) && Wordlike(key) && |key| >= 12
  }

  lemma {:induction false} SimpleEntry(line: string, host: string, key: string, rsa: bool)
    requires SimpleLine(line, host, if rsa then "ssh-rsa" else "ssh-dss", key)
    ensures IsLine(line)
    ensures ParseLine(line) == Added([Entry(Plain(host), if rsa then SshRsa else SshDss, key, None, None)], Ok)
  {
    hide ParseLine, IsLine, WritableName, Wordlike;
    var e := Entry(Plain(host), if rsa then SshRsa else SshDss, key, None, None);
    assert PrintLine(e) == line;
    LineRoundTrip(e);
  }

  lemma {:induction false} SimpleTypes(line: string)
    requires IsLine(line)
    ensures forall host, key :: SimpleLine(line, host, "ssh-rsa", key) ==>
              ParseLine(line) == Added([Entry(Plain(host), SshRsa, key, None, None)], Ok)
    ensures forall host, key :: SimpleLine(line, host, "ssh-dss", key) ==>
              ParseLine(line) == Added([Entry(Plain(host), SshDss, key, None, None)], Ok)
  {
    hide SimpleLine, ParseLine, IsLine;
    forall host, key | SimpleLine(line, host, "ssh-rsa", key) {
      SimpleEntry(line, host, key, true);
    }
    forall host, key | SimpleLine(line, host, "ssh-dss", key) {
      SimpleEntry(line, host, key, false);
    }
  }

  lemma {:induction false} HitAnswers(q: Query, f: nat, e: Entry)
    requires f < |q.names|
    ensures q.Hit(f, e) <==> AnswersFor(q.hmac, q.form, q.keyType, q.names[f], e)
  {
  }

  lemma {:induction false} FirstHit(q: Query, entries: seq<Entry>, sameKey: bool, f: nat, i: nat)
    requires FirstAt(q, entries, sameKey, f, i)
    ensures FirstOfNames(q, entries, sameKey, f, i)
  {
    hide AnswersFor, Query.Hit;
    forall g: nat, j | g < |q.names| && 0 <= j < |entries|
      ensures q.Hit(g, entries[j]) <==> AnswersFor(q.hmac, q.form, q.keyType, q.names[g], entries[j])
    {
      HitAnswers(q, g, entries[j]);
    }
  }

  /** Entry `i` is the first one for name `f`, and no name before has one. */
  ghost predicate FirstOfNames(q: Query, entries: seq<Entry>, sameKey: bool, f: nat, i: nat) {
    && f < |q.names|
    && FirstFor(q.hmac, q.form, q.keyType, q.names[f], if sameKey then Some(q.key) else None, entries, i)
    && forall g, j :: 0 <= g < f && 0 <= j < |entries| ==>
         !(AnswersFor(q.hmac, q.form, q.keyType, q.names[g], entries[j]) && (sameKey ==> entries[j].key == q.key))
  }

  ghost predicate FirstOfSome(q: Query, entries: seq<Entry>, sameKey: bool, i: nat) {
    exists f :: FirstOfNames(q, entries, sameKey, f, i)
  }

  /** Some entry answers for one of the names, with the key if that counts. */
  ghost predicate SomeAnswers(q: Query, entries: seq<Entry>, sameKey: bool) {
    exists f, i :: 0 <= f < |q.names| && 0 <= i < |entries|
                   && AnswersFor(q.hmac, q.form, q.keyType, q.names[f], entries[i])
                   && (sameKey ==> entries[i].key == q.key)
  }

  /**
   A lookup as its callers see it: a match where some entry answers with the key,
   a mismatch where some answer but none with the key; and the entry that is handed
   back is the first of those for the first of the names.
   */
  ghost predicate LookedUp(q: Query, entries: seq<Entry>, verdict: Verdict, ext: Option<nat>) {
    && (verdict == Match <==> SomeAnswers(q, entries, true))
    && (verdict == NotFound <==> !SomeAnswers(q, entries, false))
    && verdict != Failure && (ext.None? <==> verdict == NotFound)
    && (ext.Some? ==> FirstOfSome(q, entries, verdict == Match, ext.value))
  }

  lemma {:induction false} KnownAnswers(q: Query, entries: seq<Entry>)
    ensures SomeAnswers(q, entries, true) <==> exists e :: e in entries && q.Known(e) && e.key == q.key
    ensures SomeAnswers(q, entries, false) <==> exists e :: e in entries && q.Known(e)
  {
    hide AnswersFor, Query.Hit;
    forall f: nat, e | f < |q.names|
      ensures q.Hit(f, e) <==> AnswersFor(q.hmac, q.form, q.keyType, q.names[f], e)
    {
      HitAnswers(q, f, e);
    }
  }

  /** An entry with the first name, the type and the key is a match. */
  lemma {:induction false} MatchAt(q: Query, entries: seq<Entry>, verdict: Verdict, ext: Option<nat>, e: Entry)
    requires LookedUp(q, entries, verdict, ext) && e in entries && |q.names| > 0
    requires q.form == PlainForm && e.name == Plain(q.names[0]) && e.keyType == q.keyType && e.key == q.key
    requires q.keyType != UnknownKey
    ensures verdict == Match
  {
    var i :| 0 <= i < |entries| && entries[i] == e;
    assert AnswersFor(q.hmac, q.form, q.keyType, q.names[0], entries[i]);
  }

  lemma {:induction false} VerdictSpelled(q: Query, entries: seq<Entry>, verdict: Verdict, ext: Option<nat>)
    requires verdict == VerdictOf(q, entries) && (ext == None <==> verdict == NotFound)
    requires ext.Some? ==> FirstEntry(q, entries, verdict == Match, ext.value)
    ensures LookedUp(q, entries, verdict, ext)
  {
    hide AnswersFor, Query.Hit, Query.Known, FirstAt, FirstOfNames, SomeAnswers;
    KnownAnswers(q, entries);
    if ext.Some? {
      var f: nat :| FirstAt(q, entries, verdict == Match, f, ext.value);
      FirstHit(q, entries, verdict == Match, f, ext.value);
    }
  }

  class KnownHosts {
    var entries: seq<Entry>

    constructor ()
      ensures entries == []
    {
      entries := [];
    }

    /** Adds one host; on an error nothing is added. */
    method Add(host: HostArg, keyTypeName: Option<string>, key: KeyArg, comment: Option<string>,
               keyType: KeyType) returns (rc: Status)
      requires ValidKeyArg(key)
      modifies this
      ensures var r := NewEntry(host, keyType, KeyArgText(key), keyTypeName, comment);
              if r.rc == Ok && key.RawKey? && KeyArgText(key) == ""
              then rc == AllocError && entries == old(entries)
              else rc == r.rc && entries == old(entries) + r.entries
    {
      if keyType == NoKey {
        return Invalid;
      }
      var name;
      match host {
        case PlainArg(h) => name := Plain(h);
        case CustomArg(h) => name := Custom(h);
        case Sha1Arg(h, s) =>
          var hash := Base64.Decode(h);
          if hash.None? {
            return Invalid;
          }
          var salt := Base64.Decode(s);
          if salt.None? {
            return Invalid;
          }
          name := Sha1(hash.value, salt.value);
        case OtherArg => return NotSupported;
      }
      var text;
      match key {
        case TextKey(t, n) => text := if n == 0 then t else t[..n];
        case RawKey(data, n) =>
          var filled;
          text, filled := Base64.Encode(data, n);
          if text == "" {
            return AllocError;
          }
      }
      var stored := if keyType == UnknownKey then keyTypeName else None;
      entries := entries + [Entry(name, keyType, text, stored, comment)];
      return Ok;
    }

    /**
     Looks a host and its key up.  `ext` is the position of the entry that is
     handed back to the caller.
     */
    method Check(hmac: Hmac, host: string, port: int, key: KeyArg, form: Form, keyType: KeyType)
      returns (verdict: Verdict, ext: Option<nat>)
      requires ValidKeyArg(key)
      ensures form == Sha1Form ==> verdict == Mismatch && ext == None
      ensures form != Sha1Form ==>
                (verdict == Failure <==> (port >= 0 && |NameForms(host, port)[0]| >= 270)
                                         || (key.RawKey? && KeyArgText(key) == ""))
      ensures form != Sha1Form && verdict != Failure ==>
                var q := Query(hmac, form, NameForms(host, port), SearchedKey(key), keyType);
                && verdict == VerdictOf(q, entries)
                && (ext == None <==> verdict == NotFound)
                && (ext.Some? ==> FirstEntry(q, entries, verdict == Match, ext.value))
      // the same, in terms of the entries: the host alone, or `[host]:port` before it
      ensures form != Sha1Form && verdict != Failure && port < 0 ==>
                LookedUp(Query(hmac, form, [host], SearchedKey(key), keyType), entries, verdict, ext)
      ensures form != Sha1Form && verdict != Failure ==>
                forall s :: Numeral(s) && Value(s) == port ==>
                  LookedUp(Query(hmac, form, ["[" + host + "]:" + s, host], SearchedKey(key), keyType),
                           entries, verdict, ext)
      ensures form == PlainForm && keyType != UnknownKey && verdict != Failure ==>
                forall s, e :: Numeral(s) && Value(s) == port && e in entries && IsFor(e, host, s, keyType, key) ==>
                  verdict == Match
    {
      hide LookedUp, FirstEntry;
      if form == Sha1Form {
        return Mismatch, None;
      }
      var names := [host];
      if port >= 0 {
        var combo := "[" + host + "]:" + Decimal(port);
        if |combo| >= 270 {
          return Failure, None;
        }
        names := [combo, host];
      }
      var text;
      match key {
        case TextKey(t, n) => text := t;
        case RawKey(data, n) =>
          var filled;
          text, filled := Base64.Encode(data, n);
          if text == "" {
            return Failure, None;
          }
      }
      assert names == NameForms(host, port);
      verdict, ext := Search(Query(hmac, form, names, text, keyType));
      VerdictSpelled(Query(hmac, form, names, text, keyType), entries, verdict, ext);
      forall s | Numeral(s) && Value(s) == port
        ensures Decimal(port) == s
      {
        NumeralIsDecimal(s);
      }
      forall e, s | && Numeral(s) && Value(s) == port && e in entries && IsFor(e, host, s, keyType, key)
                    && form == PlainForm && keyType != UnknownKey
        ensures verdict == Match
      {
        MatchAt(Query(hmac, form, names, text, keyType), entries, verdict, ext, e);
      }
    }

    /** The nested loops of the lookup, with their flags. */
    method Search(q: Query) returns (verdict: Verdict, ext: Option<nat>)
      requires 1 <= |q.names| <= 2
      ensures verdict == VerdictOf(q, entries)
      ensures ext == None <==> verdict == NotFound
      ensures ext.Some? ==> FirstEntry(q, entries, verdict == Match, ext.value)
    {
      verdict, ext := NotFound, None;
      var badkey: Option<nat> := None;
      var match_ := false;
      var numcheck := |q.names|;
      var f := 0;
      ghost var badForm := 0;
      while true
        invariant 0 <= f < |q.names| && numcheck == |q.names| - f
        invariant !match_ && verdict == NotFound && ext == None
        invariant NoMatchBefore(q, f, 0)
        invariant BadkeyIsFirst(q, badkey, badForm, f, 0)
        decreases numcheck
      {
        var node := 0;
        while node < |entries|
          invariant 0 <= node <= |entries|
          invariant !match_
          invariant NoMatchBefore(q, f, node)
          invariant BadkeyIsFirst(q, badkey, badForm, f, node)
          invariant verdict == NotFound && ext == None
        {
          var e := entries[node];
          match e.name {
            case Plain(n) =>
              if q.form == PlainForm {
                match_ := q.names[f] == n;
              }
            case Custom(n) =>
              if q.form == CustomForm {
                match_ := q.names[f] == n;
              }
            case Sha1(hash, salt) =>
              if q.form == PlainForm && |hash| == SHA_DIGEST_LENGTH && q.hmac(salt, q.names[f]) == hash {
                match_ := true;
              }
          }
          if match_ {
            if q.keyType != UnknownKey && (q.keyType == NoKey || q.keyType == e.keyType) {
              if q.key == e.key {
                assert FirstAt(q, entries, true, f, node);
                assert q.Known(e);
                return Match, Some(node);
              } else if badkey == None {
                badkey := Some(node);
                badForm := f;
              }
            }
            match_ := false;
          }
          node := node + 1;
        }
        f := f + 1;
        numcheck := numcheck - 1;
        if numcheck == 0 {
          break;
        }
      }
      if badkey.Some? {
        verdict, ext := Mismatch, badkey;
        assert FirstAt(q, entries, false, badForm, badkey.value);
        assert q.Known(entries[badkey.value]);
      }
    }

    /** No entry before position (f, i) has a matching name, type and key. */
    ghost predicate NoMatchBefore(q: Query, f: nat, i: nat)
      reads this
    {
      forall g, j :: 0 <= g < |q.names| && 0 <= j < |entries| && (g < f || (g == f && j < i)) ==>
                       q.Hit(g, entries[j]) ==> entries[j].key != q.key
    }

    /** `badkey` is the first entry before (f, i) with a matching name and type. */
    ghost predicate BadkeyIsFirst(q: Query, badkey: Option<nat>, badForm: nat, f: nat, i: nat)
      reads this
    {
      match badkey
      case None =>
        forall g, j :: 0 <= g < |q.names| && 0 <= j < |entries| && (g < f || (g == f && j < i)) ==>
                         !q.Hit(g, entries[j])
      case Some(b) => FirstAt(q, entries, false, badForm, b)
    }

    // ---- Reading lines

    /** Reads one line of an OpenSSH file. */
    method ReadLine(line: string, fileType: int) returns (rc: Status)
      requires IsLine(line)
      modifies this
      ensures fileType != FILE_OPENSSH ==> rc == NotSupported && entries == old(entries)
      ensures fileType == FILE_OPENSSH ==>
                rc == ParseLine(line).rc && entries == old(entries) + ParseLine(line).entries
      // a line with one host and a key of a known type
      ensures fileType == FILE_OPENSSH ==>
                forall host, key :: SimpleLine(line, host, "ssh-rsa", key) ==>
                  rc == Ok && entries == old(entries) + [Entry(Plain(host), SshRsa, key, None, None)]
      ensures fileType == FILE_OPENSSH ==>
                forall host, key :: SimpleLine(line, host, "ssh-dss", key) ==>
                  rc == Ok && entries == old(entries) + [Entry(Plain(host), SshDss, key, None, None)]
    {
      hide HostLine, SkipWord, SkipBlanks, SimpleLine;
      SimpleTypes(line);
      if fileType != FILE_OPENSSH {
        return NotSupported;
      }
      var cp, len := PassBlanks(line, 0, |line|);
      if len == 0 || line[cp] == '#' || line[cp] == '\n' {
        return Ok;
      }
      var hostp := cp;
      cp, len := PassWord(line, cp, len);
      var hostend := cp;
      cp, len := PassBlanks(line, cp, len);
      if len == 0 {
        return NotSupported;
      }
      var keyp, keylen := cp, len;
      while len != 0 && line[cp] != '\n'
        invariant keyp <= cp <= |line| && cp + len == |line|
        invariant forall i :: keyp <= i < cp ==> line[i] != '\n'
      {
        cp, len := cp + 1, len - 1;
      }
      if len != 0 {
        keylen := keylen - 1;
      }
      assert keyp + keylen == TextEnd(line);
      rc := AddHostLine(line, hostp, hostend, keyp, keylen);
    }

    /** A line already split into host and key. */
    method AddHostLine(line: string, h: nat, e: nat, k: nat, keylen: nat) returns (rc: Status)
      requires IsLine(line) && h <= e <= k && k + keylen == TextEnd(line)
      modifies this
      ensures rc == HostLine(line, h, e, k).rc && entries == old(entries) + HostLine(line, h, e, k).entries
    {
      if keylen < 20 {
        return NotSupported;
      }
      var part := SplitKey(line, k, keylen);
      if e - h > 2 && line[h..h + 3] != "|1|" {
        rc := AddOldStyle(line[h..e], part);
      } else {
        rc := AddHashedHost(line, h, e, part);
      }
    }

    /** Type, key and comment of the key part. */
    method SplitKey(line: string, k: nat, keylen: nat) returns (part: KeyPart)
      requires 0 < keylen && k + keylen == TextEnd(line)
      ensures part == ParseKey(line, k, TextEnd(line))
    {
      hide NamedType, SkipWord, SkipBlanks, TextEnd;
      if Digit(line[k]) {
        return KeyPart(Rsa1, "", line[k..k + keylen], None);
      }
      var key, len := PassWord(line, k, keylen);
      var name := line[k..key];
      key, len := PassBlanks(line, key, len);
      var comment, commentlen := PassWord(line, key, len);
      len := len - commentlen;
      var text := if len == 0 then line[key..] else line[key..key + len];
      if commentlen == 0 {
        return KeyPart(NamedType(name), name, text, None);
      }
      comment, commentlen := PassBlanks(line, comment, commentlen);
      return KeyPart(NamedType(name), name, text, Some(line[comment..comment + commentlen]));
    }

    /** Moves a cursor over blanks. */
    static method PassBlanks(s: string, at: nat, size: nat) returns (cp: nat, len: nat)
      requires at + size <= |s|
      ensures cp == SkipBlanks(s, at, at + size) && cp + len == at + size
    {
      cp, len := at, size;
      while len != 0 && Blank(s[cp])
        invariant at <= cp && cp + len == at + size
        invariant SkipBlanks(s, cp, at + size) == SkipBlanks(s, at, at + size)
      {
        cp, len := cp + 1, len - 1;
      }
    }

    /** Moves a cursor over a word. */
    static method PassWord(s: string, at: nat, size: nat) returns (cp: nat, len: nat)
      requires at + size <= |s|
      ensures cp == SkipWord(s, at, at + size) && cp + len == at + size
    {
      cp, len := at, size;
      while len != 0 && !Blank(s[cp])
        invariant at <= cp && cp + len == at + size
        invariant SkipWord(s, cp, at + size) == SkipWord(s, at, at + size)
      {
        cp, len := cp + 1, len - 1;
      }
    }

    /** A comma list of plain names, added from the last to the first. */
    method AddOldStyle(host: string, part: KeyPart) returns (rc: Status)
      requires host != "" && part.keyType != NoKey
      modifies this
      ensures var r := AddNames(HostNames(host), part);
              rc == r.rc && entries == old(entries) + r.entries
    {
      hide AddNames, HostNames, LastName, LineEntry;
      var name, namelen := |host|, 0;
      ghost var added, left := [], |host|;
      ghost var all := AddNames(HostNames(host), part);
      assert host[..left] == host;
      while name > 0
        invariant 0 <= name && name + namelen <= |host| && left <= |host|
        invariant entries == old(entries) + added
        invariant name > 0 ==> left == name + namelen && left > 0
        invariant name == 0 ==> left == 0
        invariant name > 0 && namelen > 0 ==> LastName(host, left - 1) == LastName(host, name - 1)
        invariant all == Onto(added, AddNames(HostNames(host[..left]), part))
      {
        name, namelen := name - 1, namelen + 1;
        if name == 0 || host[name - 1] == ',' {
          LastNameStep(host, name);
          LastNameOfPrefix(host, left, left - 1);
          NextName(host, left, name, part);
          if namelen >= 255 {
            return NotSupported;
          }
          var hostbuf := host[name..name + namelen];
          PlainEntry(hostbuf, part);
          rc := Add(PlainArg(hostbuf), if part.keyType == Rsa1 then None else Some(part.typeName),
                    TextKey(part.key, 0), part.comment, part.keyType);
          assert rc == Ok && hostbuf == host[name..left];
          added := added + LineEntry(PlainArg(hostbuf), part).entries;
          if name > 0 {
            namelen := 0;
            name := name - 1;
            left := name;
          } else {
            left := 0;
          }
        } else {
          LastNameStep(host, name);
        }
      }
      NoNames(host, part);
      rc := Ok;
    }

    /** A host given as `|1|salt|hash`. */
    method AddHashedHost(line: string, h: nat, e: nat, part: KeyPart) returns (rc: Status)
      requires h <= e <= |line| && h + 3 <= |line|
      modifies this
      ensures var r := AddHashed(line, h, e, part);
              rc == r.rc && entries == old(entries) + r.entries
    {
      var salt := h + 3;
      var p := salt;
      while p < |line| && line[p] != '|'
        invariant salt <= p <= |line| && Find(line, '|', p) == Find(line, '|', salt)
      {
        p := p + 1;
      }
      if p == |line| {
        return Ok;
      }
      var saltlen := p - salt;
      if saltlen >= 31 {
        return NotSupported;
      }
      // The length left for the hash is unsigned in C: below zero it is huge.
      var hashlen := e - h - 3 - (saltlen + 1);
      if hashlen < 0 || hashlen >= 255 {
        return NotSupported;
      }
      rc := Add(Sha1Arg(line[p + 1..p + 1 + hashlen], line[salt..p]),
                if part.keyType == Rsa1 then None else Some(part.typeName),
                TextKey(part.key, 0), part.comment, part.keyType);
    }

    // ---- Writing lines

    /**
     Writes one entry as a line into a buffer.  `outlen` is the length of the
     line, whether or not it fits; nothing is written when it does not.
     */
    method WriteLine(e: Entry, buf: array<char>, fileType: int) returns (rc: Status, outlen: nat)
      requires e.name.Sha1? ==> e.name.hash != [] && e.name.salt != []
      modifies buf
      ensures fileType != FILE_OPENSSH || TypeText(e).None? ==> rc == NotSupported && buf[..] == old(buf[..])
      ensures fileType == FILE_OPENSSH && TypeText(e).Some? ==>
                && outlen == |PrintLine(e)|
                && rc == (if outlen + 1 <= buf.Length then Ok else BufferTooSmall)
                && (rc == Ok ==>
                    buf[..outlen + 1] == PrintLine(e) + "\0" && buf[outlen + 1..] == old(buf[outlen + 1..]))
                && (rc != Ok ==> buf[..] == old(buf[..]))
    {
      outlen := 0;
      if fileType != FILE_OPENSSH {
        return NotSupported, 0;
      }
      var typeName;
      match e.keyType {
        case Rsa1 => typeName := "";
        case SshRsa => typeName := "ssh-rsa";
        case SshDss => typeName := "ssh-dss";
        case UnknownKey =>
          if e.keyTypeName.None? {
            return NotSupported, 0;
          }
          typeName := e.keyTypeName.value;
        case _ => return NotSupported, 0;
      }
      var tail, required := WriteKey(e, typeName);
      var host;
      match e.name {
        case Sha1(hash, salt) =>
          var name64, salt64, n;
          name64, n := Base64.Encode(hash, |hash|);
          salt64, n := Base64.Encode(salt, |salt|);
          assert hash[..|hash|] == hash && salt[..|salt|] == salt;
          required := required + |salt64| + |name64| + 7;
          host := "|1|" + salt64 + "|" + name64;
        case _ =>
          required := required + |e.name.name| + 3;
          host := e.name.name;
      }
      outlen := required - 1;
      if required <= buf.Length {
        Format(buf, host + " " + tail + "\n");
        return Ok, outlen;
      }
      return BufferTooSmall, outlen;
    }

    /** The key part of a line, and its length as it is counted in advance. */
    static method WriteKey(e: Entry, typeName: string) returns (tail: string, required: nat)
      requires TypeText(e) == Some(typeName)
      ensures tail == KeyText(e) && required == |tail|
    {
      required := |e.key|;
      if |typeName| != 0 {
        required := required + |typeName| + 1;
      }
      if e.comment.Some? {
        required := required + |e.comment.value| + 1;
      }
      tail := e.key;
      if e.comment.Some? && |typeName| != 0 {
        tail := typeName + " " + e.key + " " + e.comment.value;
      } else if e.comment.Some? {
        tail := e.key + " " + e.comment.value;
      } else if |typeName| != 0 {
        tail := typeName + " " + e.key;
      }
    }

    /** Puts a text and its terminator at the start of the buffer. */
    static method Format(buf: array<char>, text: string)
      requires |text| + 1 <= buf.Length
      modifies buf
      ensures buf[..|text| + 1] == text + "\0" && buf[|text| + 1..] == old(buf[|text| + 1..])
    {
      forall i | 0 <= i < |text| {
        buf[i] := text[i];
      }
      buf[|text|] := '\0';
    }
  }

  /** Entries already added, then the rest. */
  ghost function Onto(added: seq<Entry>, r: Added): Added {
    Added(added + r.entries, r.rc)
  }

  lemma {:induction false} LastNameStep(host: string, i: nat)
    requires i < |host|
    ensures LastName(host, i) == if i == 0 || host[i - 1] == ',' then i else LastName(host, i - 1)
  {
  }

  lemma {:induction false} NoNames(host: string, part: KeyPart)
    ensures AddNames(HostNames(host[..0]), part) == Added([], Ok)
  {
  }

  lemma {:induction false} PlainEntryOk(n: string, part: KeyPart)
    requires part.keyType != NoKey
    ensures LineEntry(PlainArg(n), part).rc == Ok
  {
  }

  lemma {:induction false} PlainEntry(n: string, part: KeyPart)
    ensures LineEntry(PlainArg(n), part)
            == NewEntry(PlainArg(n), part.keyType, part.key,
                        if part.keyType == Rsa1 then None else Some(part.typeName), part.comment)
  {
  }

  /** What follows a name does not change where it starts. */
  lemma {:induction false} LastNameOfPrefix(host: string, left: nat, i: nat)
    requires i < left <= |host|
    ensures LastName(host[..left], i) == LastName(host, i)
  {
    if i > 0 && host[i - 1] != ',' {
      LastNameOfPrefix(host, left, i - 1);
    }
  }

  lemma {:induction false} LastOfNames(host: string, left: nat, name: nat)
    requires name < left <= |host| && LastName(host[..left], left - 1) == name
    ensures HostNames(host[..left]) == [host[name..left]] + HostNames(host[..if name == 0 then 0 else name - 1])
  {
    hide LastName;
    var h := host[..left];
    assert h[name..] == host[name..left];
    assert name > 0 ==> h[..name - 1] == host[..name - 1];
  }

  /** One name is split off the end of a comma list. */
  lemma {:induction false} NextName(host: string, left: nat, name: nat, part: KeyPart)
    requires name < left <= |host| && part.keyType != NoKey
    requires LastName(host[..left], left - 1) == name
    ensures var n := host[name..left];
            var rest := host[..if name == 0 then 0 else name - 1];
            && (|n| >= 255 ==> AddNames(HostNames(host[..left]), part) == Added([], NotSupported))
            && (|n| < 255 ==> AddNames(HostNames(host[..left]), part)
                              == Onto(LineEntry(PlainArg(n), part).entries, AddNames(HostNames(rest), part)))
  {
    hide LineEntry, HostNames, LastName;
    var n := host[name..left];
    var rest := host[..if name == 0 then 0 else name - 1];
    PlainEntryOk(n, part);
    LastOfNames(host, left, name);
    assert ([n] + HostNames(rest))[1..] == HostNames(rest);
  }

  /** Writes an entry to a buffer of the size it asks for and reads the line elsewhere. */
  method CopyEntry(hosts: KnownHosts, e: Entry, copy: KnownHosts) returns (rc: Status)
    requires Writable(e)
    modifies copy
    ensures rc == Ok && copy.entries == old(copy.entries) + [e]
  {
    hide ParseLine, PrintLine, IsLine;
    LineRoundTrip(e);
    var none := new char[0];
    var len;
    rc, len := hosts.WriteLine(e, none, FILE_OPENSSH);
    var buf := new char[len + 1];
    rc, len := hosts.WriteLine(e, buf, FILE_OPENSSH);
    var line := buf[..len];
    assert line == PrintLine(e);
    rc := copy.ReadLine(line, FILE_OPENSSH);
  }

  /**
   Writing every entry of a collection to lines and reading the lines into an
   empty collection gives the same entries, and so the same verdicts.
   */
  method CopyThroughLines(hosts: KnownHosts) returns (copy: KnownHosts, ok: bool)
    requires AllWritable(hosts.entries)
    ensures fresh(copy) && ok && copy.entries == hosts.entries
    ensures forall q :: VerdictOf(q, copy.entries) == VerdictOf(q, hosts.entries)
  {
    copy := new KnownHosts();
    ok := true;
    for i := 0 to |hosts.entries|
      invariant ok && copy.entries == hosts.entries[..i]
      invariant fresh(copy)
    {
      var rc := CopyEntry(hosts, hosts.entries[i], copy);
      ok := ok && rc == Ok;
    }
  }
}
