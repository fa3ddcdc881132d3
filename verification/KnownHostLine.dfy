/**
 Entries of a known-hosts collection and the OpenSSH line format: what a line
 means, how an entry is printed, and the proof that reading a printed entry
 gives the entry back.
 */
module KnownHostLine {
  import opened Bytes
  import Base64

  datatype HostName =
    | Plain(name: string)
    | Sha1(hash: seq<byte>, salt: seq<byte>)
    | Custom(name: string)

  /** The key-type bits of a type mask; `NoKey` is zero. */
  datatype KeyType = NoKey | Rsa1 | SshRsa | SshDss | Reserved(bits: nat) | UnknownKey

  /** A known host; the key is kept as base64 text. */
  datatype Entry = Entry(name: HostName, keyType: KeyType, key: string,
                         keyTypeName: Option<string>, comment: Option<string>)

  datatype Status = Ok | NotSupported | Invalid | AllocError | BufferTooSmall

  /** What an operation appends to the collection, and its return code. */
  datatype Added = Added(entries: seq<Entry>, rc: Status)

  /** A host name as given to `knownhost_add`: its form is part of the type mask. */
  datatype HostArg = PlainArg(host: string) | CustomArg(host: string) | Sha1Arg(host: string, salt: string) | OtherArg

  /** The key part of a line. */
  datatype KeyPart = KeyPart(keyType: KeyType, typeName: string, key: string, comment: Option<string>)

  predicate Blank(c: char) { c == ' ' || c == '\t' }

  predicate Digit(c: char) { '0' <= c <= '9' }

  /** The first position from `i` on that holds no blank, `end` at most. */
  function SkipBlanks(s: string, i: nat, end: nat): (j: nat)
    requires i <= end <= |s|
    ensures i <= j <= end
    decreases end - i
  {
    if i < end && Blank(s[i]) then SkipBlanks(s, i + 1, end) else i
  }

  /** The first position from `i` on that holds a blank, `end` at most. */
  function SkipWord(s: string, i: nat, end: nat): (j: nat)
    requires i <= end <= |s|
    ensures i <= j <= end
    decreases end - i
  {
    if i < end && !Blank(s[i]) then SkipWord(s, i + 1, end) else i
  }

  /** The first position from `i` on that holds `c`, the end of `s` at most. */
  function Find(s: string, c: char, i: nat): (j: nat)
    requires i <= |s|
    ensures i <= j <= |s|
    decreases |s| - i
  {
    if i < |s| && s[i] != c then Find(s, c, i + 1) else i
  }

  /** A line as `fgets` delivers it: a newline at the end only, no zero byte. */
  predicate IsLine(line: string) {
    forall i :: 0 <= i < |line| ==> line[i] != '\0' && (line[i] == '\n' ==> i == |line| - 1)
  }

  /** Where the text of a line ends: before its newline. */
  function TextEnd(line: string): (n: nat)
    ensures n <= |line|
  {
    if |line| > 0 && line[|line| - 1] == '\n' then |line| - 1 else |line|
  }

  /** What `knownhost_add` makes of its arguments; the key is text already. */
  function NewEntry(host: HostArg, keyType: KeyType, key: string, typeName: Option<string>,
                    comment: Option<string>): (r: Added)
  {
    if keyType == NoKey then Added([], Invalid) else
    var stored := if keyType == UnknownKey then typeName else None;
    match host
    case PlainArg(h) => Added([Entry(Plain(h), keyType, key, stored, comment)], Ok)
    case CustomArg(h) => Added([Entry(Custom(h), keyType, key, stored, comment)], Ok)
    case Sha1Arg(h, s) =>
      var (hash, salt) := (Base64.Decoded(h), Base64.Decoded(s));
      if hash.None? || salt.None? then Added([], Invalid)
      else Added([Entry(Sha1(hash.value, salt.value), keyType, key, stored, comment)], Ok)
    case OtherArg => Added([], NotSupported)
  }

  /** An entry for a host whose key part was read from a line. */
  function LineEntry(host: HostArg, k: KeyPart): Added {
    NewEntry(host, k.keyType, k.key, if k.keyType == Rsa1 then None else Some(k.typeName), k.comment)
  }

  /** A type name is taken for a known one when it is a prefix of it. */
  function NamedType(name: string): KeyType {
    if name <= "ssh-dss" then SshDss
    else if name <= "ssh-rsa" then SshRsa
    else UnknownKey
  }

  /** The key part of a line, from `k` to the end of the text. */
  function ParseKey(line: string, k: nat, end: nat): (p: KeyPart)
    requires k < end <= |line|
  {
    if Digit(line[k]) then KeyPart(Rsa1, "", line[k..end], None) else
    var t := SkipWord(line, k, end);
    var b := SkipBlanks(line, t, end);
    var e := SkipWord(line, b, end);
    KeyPart(NamedType(line[k..t]), line[k..t], if b == e then line[b..] else line[b..e],
            if e == end then None else Some(line[SkipBlanks(line, e, end)..end]))
  }

  /** Where the last name of a comma list starts. */
  function LastName(host: string, i: nat): (j: nat)
    requires i < |host|
    ensures j <= i
  {
    if i == 0 || host[i - 1] == ',' then i else LastName(host, i - 1)
  }

  /** The names of a comma list, last one first. */
  function HostNames(host: string): (names: seq<string>)
    decreases |host|
  {
    if host == "" then [] else
    var j := LastName(host, |host| - 1);
    [host[j..]] + if j == 0 then [] else HostNames(host[..j - 1])
  }

  /** Names with a comma between them. */
  function CommaList(names: seq<string>): string
    requires names != []
  {
    var last := names[|names| - 1];
    if |names| == 1 then last else CommaList(names[..|names| - 1]) + "," + last
  }

  function Backwards(names: seq<string>): seq<string> {
    if names == [] then [] else [names[|names| - 1]] + Backwards(names[..|names| - 1])
  }

  lemma {:induction false} LastNameAt(host: string, i: nat, j: nat)
    requires j <= i < |host| && (j == 0 || host[j - 1] == ',')
    requires forall k :: j <= k < i ==> host[k] != ','
    ensures LastName(host, i) == j
  {
    if j < i {
      LastNameAt(host, i - 1, j);
    }
  }

  /** The scan splits the last name off. */
  lemma {:induction false} LastNameSplit(pre: string, last: string)
    requires last != "" && ',' !in last && (pre == "" || pre[|pre| - 1] == ',')
    ensures HostNames(pre + last) == [last] + if pre == "" then [] else HostNames(pre[..|pre| - 1])
  {
    hide HostNames, LastName;
    var host, j := pre + last, |pre|;
    LastNameFree(pre, last);
    LastNameAt(host, |host| - 1, j);
    HostNamesStep(host, j);
    assert host[j..] == last;
    if j > 0 {
      assert host[..j - 1] == pre[..j - 1];
    }
  }

  lemma {:induction false} LastNameFree(pre: string, last: string)
    requires ',' !in last
    ensures forall k :: |pre| <= k < |pre + last| ==> (pre + last)[k] != ','
  {
  }

  lemma {:induction false} HostNamesStep(host: string, j: nat)
    requires host != "" && LastName(host, |host| - 1) == j
    ensures HostNames(host) == [host[j..]] + if j == 0 then [] else HostNames(host[..j - 1])
  {
  }

  /** The scan finds the names of a comma list, all of them, the last one first. */
  lemma {:induction false} ListedNames(names: seq<string>)
    requires names != [] && forall i :: 0 <= i < |names| ==> names[i] != "" && ',' !in names[i]
    ensures HostNames(CommaList(names)) == Backwards(names)
  {
    hide HostNames;
    var last, front := names[|names| - 1], names[..|names| - 1];
    if |names| == 1 {
      LastNameSplit("", last);
      assert "" + last == last && Backwards(front) == [];
    } else {
      ListedNames(front);
      var pre := CommaList(front) + ",";
      LastNameSplit(pre, last);
      assert pre[..|pre| - 1] == CommaList(front);
    }
  }

  /** One entry for each name, up to the first name that is too long. */
  function AddNames(names: seq<string>, k: KeyPart): (r: Added)
  {
    if names == [] then Added([], Ok)
    else if |names[0]| >= 255 then Added([], NotSupported)
    else
      var first := LineEntry(PlainArg(names[0]), k);
      if first.rc != Ok then first else
      var rest := AddNames(names[1..], k);
      Added(first.entries + rest.entries, rest.rc)
  }

  /** A hashed host `|1|salt|hash` between `h` and `e`. */
  function AddHashed(line: string, h: nat, e: nat, k: KeyPart): (r: Added)
    requires h <= e <= |line| && h + 3 <= |line|
  {
    var p := Find(line, '|', h + 3);
    if p == |line| then Added([], Ok)
    else if p - (h + 3) >= 31 || p + 1 > e || e - (p + 1) >= 255 then Added([], NotSupported)
    else LineEntry(Sha1Arg(line[p + 1..e], line[h + 3..p]), k)
  }

  /** A host and key line: host between `h` and `e`, key from `k` on. */
  function HostLine(line: string, h: nat, e: nat, k: nat): (r: Added)
    requires h <= e <= k <= TextEnd(line)
  {
    if TextEnd(line) - k < 20 then Added([], NotSupported) else
    var part := ParseKey(line, k, TextEnd(line));
    if e - h > 2 && line[h..h + 3] != "|1|" then AddNames(HostNames(line[h..e]), part)
    else AddHashed(line, h, e, part)
  }

  /** What reading a line appends to the collection, and the return code. */
  function ParseLine(line: string): (r: Added)
    requires IsLine(line)
  {
    var n := |line|;
    var h := SkipBlanks(line, 0, n);
    if h == n || line[h] == '#' || line[h] == '\n' then Added([], Ok) else
    var e := SkipWord(line, h, n);
    var k := SkipBlanks(line, e, n);
    if k == n then Added([], NotSupported)
    else HostLine(line, h, e, k)
  }

  /** The name that is printed for a key type; none when it cannot be printed. */
  function TypeText(e: Entry): Option<string> {
    match e.keyType
    case Rsa1 => Some("")
    case SshRsa => Some("ssh-rsa")
    case SshDss => Some("ssh-dss")
    case UnknownKey => e.keyTypeName
    case _ => None
  }

  function HostText(name: HostName): string {
    match name
    case Sha1(hash, salt) => "|1|" + Base64.Encoded(salt) + "|" + Base64.Encoded(hash)
    case _ => name.name
  }

  /** The key part of a printed line. */
  function KeyText(e: Entry): string
    requires TypeText(e).Some?
  {
    (if TypeText(e).value == "" then "" else TypeText(e).value + " ")
    + e.key
    + (if e.comment.None? then "" else " " + e.comment.value)
  }

  function PrintLine(e: Entry): string
    requires TypeText(e).Some?
  {
    HostText(e.name) + " " + KeyText(e) + "\n"
  }

  // ---- Which entries survive being written and read

  predicate Printable(c: char) { c != '\0' && c != '\n' }

  predicate Wordlike(s: string) {
    forall i :: 0 <= i < |s| ==> Printable(s[i]) && !Blank(s[i])
  }

  predicate Text(s: string) {
    forall i :: 0 <= i < |s| ==> Printable(s[i])
  }

  predicate WritableName(name: HostName) {
    match name
    case Plain(n) => 3 <= |n| <= 254 && Wordlike(n) && ',' !in n[..|n| - 1] && n[0] != '#' && n[..3] != "|1|"
    case Sha1(hash, salt) => 1 <= |salt| <= 21 && 1 <= |hash| <= 189
    case Custom(_) => false
  }

  predicate LegibleKey(e: Entry) {
    match e.keyType
    case Rsa1 =>
      e.keyTypeName.None? && e.key != "" && Digit(e.key[0]) && Text(e.key)
    case SshRsa | SshDss =>
      e.keyTypeName.None? && e.key != "" && Wordlike(e.key)
    case UnknownKey =>
      e.key != "" && Wordlike(e.key)
      && e.keyTypeName.Some? && e.keyTypeName.value != "" && Wordlike(e.keyTypeName.value)
      && !Digit(e.keyTypeName.value[0])
    case _ => false
  }

  /** The printed line is read as one entry for the same host. */
  predicate Legible(e: Entry)
  {
    && WritableName(e.name)
    && LegibleKey(e)
    && |KeyText(e)| >= 20
    && (e.comment.Some? ==> Text(e.comment.value))
  }

  /** A legible entry that reading does not change. */
  predicate Writable(e: Entry)
  {
    && Legible(e)
    && (e.keyType == Rsa1 ==> e.comment.None?)
    && (e.keyType == UnknownKey ==> NamedType(e.keyTypeName.value) == UnknownKey)
    && (e.comment.Some? ==> e.comment.value == "" || !Blank(e.comment.value[0]))
  }

  /** A text without its leading blanks. */
  function Trimmed(s: string): string {
    s[SkipBlanks(s, 0, |s|)..]
  }

  function TrimmedComment(comment: Option<string>): Option<string> {
    if comment.None? then None else Some(Trimmed(comment.value))
  }

  /**
   What a printed entry is read as.  An RSA1 key takes its comment into the key;
   otherwise a comment loses its leading blanks, and an unknown type whose name
   is a prefix of a known one becomes the known one.
   */
  function Reread(e: Entry): Entry
    requires Legible(e)
  {
    if e.keyType == Rsa1 then e.(key := KeyText(e), comment := None) else
    var t := NamedType(TypeText(e).value);
    Entry(e.name, t, e.key, if t == UnknownKey then e.keyTypeName else None, TrimmedComment(e.comment))
  }

  // ---- The cursor functions on known text

  lemma {:induction false} SkipWordTo(s: string, i: nat, j: nat, end: nat)
    requires i <= j <= end <= |s|
    requires forall k :: i <= k < j ==> !Blank(s[k])
    requires j == end || Blank(s[j])
    ensures SkipWord(s, i, end) == j
    decreases j - i
  {
    if i < j {
      SkipWordTo(s, i + 1, j, end);
    }
  }

  lemma {:induction false} FindAt(s: string, c: char, i: nat, j: nat)
    requires i <= j < |s| && s[j] == c
    requires forall k :: i <= k < j ==> s[k] != c
    ensures Find(s, c, i) == j
    decreases j - i
  {
    if i < j {
      FindAt(s, c, i + 1, j);
    }
  }

  /** One blank between words: that is all `SkipBlanks` passes over. */
  lemma {:induction false} SkipOneBlank(s: string, i: nat, end: nat)
    requires i < end <= |s| && Blank(s[i])
    requires i + 1 == end || !Blank(s[i + 1])
    ensures SkipBlanks(s, i, end) == i + 1
  {
    assert SkipBlanks(s, i + 1, end) == i + 1;
  }

  /** A word that stands at `i` is what `SkipWord` passes over. */
  lemma {:induction false} SkipPiece(s: string, i: nat, w: string, end: nat)
    requires i + |w| <= end <= |s| && s[i..i + |w|] == w && Wordlike(w)
    requires i + |w| == end || Blank(s[i + |w|])
    ensures SkipWord(s, i, end) == i + |w|
  {
    forall k | i <= k < i + |w|
      ensures !Blank(s[k])
    {
      assert s[k] == w[k - i];
    }
    SkipWordTo(s, i, i + |w|, end);
  }

  /** Blanks are passed over alike in a text and where it stands in a line. */
  lemma {:induction false} SkipBlanksIn(line: string, k: nat, end: nat, c: string, j: nat)
    requires k <= end <= |line| && line[k..end] == c && j <= |c|
    ensures SkipBlanks(line, k + j, end) == k + SkipBlanks(c, j, |c|)
    decreases |c| - j
  {
    if j < |c| {
      assert line[k + j] == c[j];
      SkipBlanksIn(line, k, end, c, j + 1);
    }
  }

  /** The key part is read from where it was printed, whatever precedes it. */
  lemma {:induction false} ParsePrintedKey(pre: string, e: Entry)
    requires Legible(e)
    ensures var line := pre + KeyText(e) + "\n";
            && TextEnd(line) == |pre| + |KeyText(e)|
            && ParseKey(line, |pre|, TextEnd(line))
               == KeyPart(Reread(e).keyType, TypeText(e).value, Reread(e).key, Reread(e).comment)
  {
    var line := pre + KeyText(e) + "\n";
    var k, end := |pre|, |pre| + |KeyText(e)|;
    assert TextEnd(line) == end;
    assert line[k..end] == KeyText(e);
    if e.keyType == Rsa1 {
      assert line[k] == KeyText(e)[0] == e.key[0];
    } else {
      ParseTypedKey(line, k, end, TypeText(e).value, e.key, e.comment);
    }
  }

  /** The same for a key with a type name in front. */
  lemma {:induction false} ParseTypedKey(line: string, k: nat, end: nat, name: string, key: string,
                                         comment: Option<string>)
    requires k < end <= |line|
    requires name != "" && Wordlike(name) && !Digit(name[0]) && key != "" && Wordlike(key)
    requires line[k..end] == name + " " + key + if comment.None? then "" else " " + comment.value
    ensures ParseKey(line, k, end) == KeyPart(NamedType(name), name, key, TrimmedComment(comment))
  {
    var t, e := k + |name|, k + |name| + 1 + |key|;
    if comment.None? {
      Pieces(line, k, end, name, key, "");
    } else {
      Pieces(line, k, end, name, key, " " + comment.value);
      SubSlice(line, e, end, 1, end - e);
      assert (" " + comment.value)[1..] == comment.value;
    }
    ParsePieces(line, k, t, e, end, name, key, comment);
  }

  /** The cursor stops where the pieces meet. */
  lemma {:induction false} ParsePieces(line: string, k: nat, t: nat, e: nat, end: nat, name: string, key: string,
                                       comment: Option<string>)
    requires k < t && t + 1 < e <= end <= |line|
    requires line[k..t] == name && Wordlike(name) && !Digit(name[0])
    requires line[t] == ' ' && line[t + 1..e] == key && Wordlike(key)
    requires comment.None? ==> e == end
    requires comment.Some? ==> e < end && line[e] == ' ' && line[e + 1..end] == comment.value
    ensures ParseKey(line, k, end) == KeyPart(NamedType(name), name, key, TrimmedComment(comment))
  {
    KeyPositions(line, k, t, e, end, name, key);
    if comment.Some? {
      TrimmedAt(line, e, end, comment.value);
    }
  }

  lemma {:induction false} TrimmedAt(line: string, e: nat, end: nat, c: string)
    requires e < end <= |line| && line[e] == ' ' && line[e + 1..end] == c
    ensures line[SkipBlanks(line, e, end)..end] == Trimmed(c)
  {
    SkipBlanksIn(line, e + 1, end, c, 0);
    var j := SkipBlanks(c, 0, |c|);
    SubSlice(line, e + 1, end, j, |c|);
    assert c[j..|c|] == c[j..];
  }

  lemma {:induction false} KeyPositions(line: string, k: nat, t: nat, e: nat, end: nat, name: string, key: string)
    requires k < t && t + 1 < e <= end <= |line|
    requires line[k..t] == name && Wordlike(name)
    requires line[t] == ' ' && line[t + 1..e] == key && Wordlike(key)
    requires e == end || line[e] == ' '
    ensures line[k] == name[0] && SkipWord(line, k, end) == t && SkipBlanks(line, t, end) == t + 1
    ensures SkipWord(line, t + 1, end) == e
  {
    assert line[k] == name[0] && line[t + 1] == key[0];
    SkipPiece(line, k, name, end);
    SkipOneBlank(line, t, end);
    SkipPiece(line, t + 1, key, end);
  }

  lemma {:induction false} SubSlice(line: string, k: nat, end: nat, i: nat, j: nat)
    requires k <= end <= |line| && i <= j <= end - k
    ensures line[k..end][i..j] == line[k + i..k + j]
  {
    var a, b := line[k..end][i..j], line[k + i..k + j];
    assert forall m :: 0 <= m < |a| ==> a[m] == b[m];
  }

  /** Where the pieces of a concatenation stand. */
  lemma {:induction false} Pieces(line: string, k: nat, end: nat, name: string, key: string, rest: string)
    requires k <= end <= |line| && line[k..end] == name + " " + key + rest
    ensures var t, e := k + |name|, k + |name| + 1 + |key|;
            && t < e <= end
            && line[k..t] == name && line[t] == ' ' && line[t + 1..e] == key && line[e..end] == rest
            && (rest != "" ==> e < end && line[e] == rest[0])
  {
    var text := line[k..end];
    var t, e := k + |name|, k + |name| + 1 + |key|;
    SubSlice(line, k, end, 0, |name|);
    SubSlice(line, k, end, |name| + 1, |name| + 1 + |key|);
    SubSlice(line, k, end, |name| + 1 + |key|, |text|);
    assert text[0..|name|] == name;
    assert text[|name|] == line[t];
    assert text[|name| + 1..|name| + 1 + |key|] == key;
    assert text[|name| + 1 + |key|..|text|] == rest;
  }

  /** A name without commas, but perhaps one at its end, is a list of one name. */
  lemma {:induction false} LastNameOfOne(host: string, i: nat)
    requires i < |host| && ',' !in host[..|host| - 1]
    ensures LastName(host, i) == 0
  {
    if i > 0 {
      assert host[i - 1] == host[..|host| - 1][i - 1];
      LastNameOfOne(host, i - 1);
    }
  }

  /** Base64 text holds no blank, bar, newline or zero byte. */
  lemma {:induction false} EncodedIsWordlike(data: seq<byte>)
    ensures Wordlike(Base64.Encoded(data)) && '|' !in Base64.Encoded(data)
  {
    Base64.EncodedAlphabet(data);
    var s := Base64.Encoded(data);
    forall i | 0 <= i < |s|
      ensures Printable(s[i]) && !Blank(s[i]) && s[i] != '|'
    {
      assert Base64.InAlphabet(s[i]);
    }
  }

  lemma {:induction false} HostTextIsWord(name: HostName)
    requires WritableName(name)
    ensures Wordlike(HostText(name)) && |HostText(name)| >= 3 && HostText(name)[0] != '#'
  {
    if name.Sha1? {
      EncodedIsWordlike(name.salt);
      EncodedIsWordlike(name.hash);
      assert forall c :: c in "|1|" ==> Printable(c) && !Blank(c);
    }
  }

  /** A plain host name gives one entry. */
  lemma {:induction false} PlainReadBack(n: string, part: KeyPart)
    requires 0 < |n| < 255 && ',' !in n[..|n| - 1] && part.keyType != NoKey
    ensures AddNames(HostNames(n), part) == LineEntry(PlainArg(n), part)
  {
    LastNameOfOne(n, |n| - 1);
    assert HostNames(n) == [n];
    assert AddNames([], part) == Added([], Ok);
  }

  /** The salt and the hash are found between the bars. */
  lemma {:induction false} HashedReadBack(line: string, a: nat, salt: string, hash: string, part: KeyPart)
    requires a < |line| && line[..a] == "|1|" + salt + "|" + hash
    requires '|' !in salt && |salt| < 31 && |hash| < 255
    ensures line[..3] == "|1|" && AddHashed(line, 0, a, part) == LineEntry(Sha1Arg(hash, salt), part)
  {
    var host, p := line[..a], 3 + |salt|;
    assert line[..3] == host[..3] == "|1|";
    assert line[3..p] == host[3..p] == salt;
    assert line[p] == host[p] == '|';
    assert line[p + 1..a] == host[p + 1..a] == hash;
    forall k | 3 <= k < p
      ensures line[k] != '|'
    {
      assert line[k] == salt[k - 3];
    }
    FindAt(line, '|', 3, p);
  }

  /** What the host part of a line gives, by its form. */
  function HostPart(line: string, a: nat, part: KeyPart): Added
    requires 3 <= a < |line|
  {
    if line[..3] != "|1|" then AddNames(HostNames(line[..a]), part) else AddHashed(line, 0, a, part)
  }

  /** The host part is read back: the printed entry and nothing else. */
  lemma {:induction false} HostPartReadBack(line: string, e: Entry, a: nat, part: KeyPart)
    requires WritableName(e.name) && e.keyType != NoKey
    requires part.keyType == e.keyType && part.key == e.key && part.comment == e.comment
    requires e.keyTypeName == if e.keyType == UnknownKey then Some(part.typeName) else None
    requires a == |HostText(e.name)| < |line| && line[..a] == HostText(e.name)
    ensures a >= 3 && HostPart(line, a, part) == Added([e], Ok)
  {
    if e.name.Plain? {
      assert line[..3] == HostText(e.name)[..3];
      PlainReadBack(e.name.name, part);
    } else {
      var Sha1(h, s) := e.name;
      EncodedIsWordlike(s);
      SizesFit(h, s);
      HashedReadBack(line, a, Base64.Encoded(s), Base64.Encoded(h), part);
      Base64.RoundTrip(s);
      Base64.RoundTrip(h);
    }
  }

  lemma {:induction false} SizesFit(hash: seq<byte>, salt: seq<byte>)
    requires |salt| <= 21 && |hash| <= 189
    ensures |Base64.Encoded(salt)| < 31 && |Base64.Encoded(hash)| < 255
  {
    var saltGroups := Base64.EncodedLength(salt);
    var hashGroups := Base64.EncodedLength(hash);
  }

  lemma {:induction false} PrintedIsLine(e: Entry)
    requires Legible(e)
    ensures IsLine(PrintLine(e))
  {
    HostTextIsWord(e.name);
    KeyTextIsText(e);
    var front := HostText(e.name) + " " + KeyText(e);
    assert Text(front);
    assert PrintLine(e) == front + "\n";
  }

  lemma {:induction false} KeyTextIsText(e: Entry)
    requires Legible(e)
    ensures Text(KeyText(e)) && !Blank(KeyText(e)[0])
  {
    assert forall c :: c in "ssh-rsa" || c in "ssh-dss" ==> Printable(c);
    assert Text(TypeText(e).value);
  }

  /** A line whose host and key stand where the printer puts them. */
  lemma {:induction false} ParseAt(line: string, a: nat, r: Added)
    requires IsLine(line) && 3 <= a && a + 21 <= TextEnd(line)
    requires SkipBlanks(line, 0, |line|) == 0 && line[0] != '#' && line[0] != '\n'
    requires SkipWord(line, 0, |line|) == a && SkipBlanks(line, a, |line|) == a + 1
    requires HostPart(line, a, ParseKey(line, a + 1, TextEnd(line))) == r
    ensures ParseLine(line) == r
  {
    assert line[0..3] == line[..3] && line[0..a] == line[..a];
  }

  /** Reading a printed entry appends one entry, and which one. */
  lemma {:induction false} LineReread(e: Entry)
    requires Legible(e)
    ensures IsLine(PrintLine(e)) && ParseLine(PrintLine(e)) == Added([Reread(e)], Ok)
  {
    hide IsLine, ParseLine, ParseKey, HostPart, KeyText, HostText, TextEnd;
    PrintedIsLine(e);
    var line, host, key := PrintLine(e), HostText(e.name), KeyText(e);
    ParsePrintedKey(host + " ", e);
    HostTextIsWord(e.name);
    KeyTextIsText(e);
    assert host + " " + key + "\n" == line;
    assert line[..|host|] == host;
    var r := Reread(e);
    var part := KeyPart(r.keyType, TypeText(e).value, r.key, r.comment);
    HostPartReadBack(line, r, |host|, part);
    PartsReadBack(line, host, key, part, Added([r], Ok));
  }

  /** Reading changes nothing exactly for writable entries. */
  lemma {:induction false} RereadChanges(e: Entry)
    requires Legible(e)
    ensures Reread(e) == e <==> Writable(e)
  {
    assert "ssh-rsa"[4] != "ssh-dss"[4];
    if e.comment.Some? {
      TrimmedChanges(e.comment.value);
    }
  }

  lemma {:induction false} TrimmedChanges(s: string)
    ensures Trimmed(s) == s <==> s == "" || !Blank(s[0])
  {
    if s != "" && Blank(s[0]) {
      assert SkipBlanks(s, 0, |s|) >= 1;
      assert |Trimmed(s)| < |s|;
    }
  }

  /** Reading the printed line gives the entry back exactly when it is writable. */
  lemma {:induction false} LineRoundTripExactly(e: Entry)
    requires Legible(e)
    ensures IsLine(PrintLine(e)) && (ParseLine(PrintLine(e)) == Added([e], Ok) <==> Writable(e))
  {
    hide IsLine, ParseLine, PrintLine, Writable, Reread, Legible;
    LineReread(e);
    RereadChanges(e);
    assert [Reread(e)] == [e] <==> Reread(e) == e by {
      assert [Reread(e)][0] == Reread(e);
    }
  }

  /** Reading a printed entry appends exactly that entry. */
  lemma {:induction false} LineRoundTrip(e: Entry)
    requires Writable(e)
    ensures IsLine(PrintLine(e)) && ParseLine(PrintLine(e)) == Added([e], Ok)
  {
    LineRoundTripExactly(e);
  }

  /** From what is known of the host and the key to the whole line. */
  lemma {:induction false} PartsReadBack(line: string, host: string, key: string, part: KeyPart, r: Added)
    requires IsLine(line) && line == host + " " + key + "\n" && TextEnd(line) == |host| + 1 + |key|
    requires Wordlike(host) && |host| >= 3 && host[0] != '#' && host[0] != '\n' && |key| >= 20 && !Blank(key[0])
    requires ParseKey(line, |host| + 1, TextEnd(line)) == part && HostPart(line, |host|, part) == r
    ensures ParseLine(line) == r
  {
    hide *;
    HostAndKeyStart(line, host, key);
    ParseAt(line, |host|, r);
  }

  /** Where the host and the key of a printed line are found. */
  lemma {:induction false} HostAndKeyStart(line: string, host: string, key: string)
    requires line == host + " " + key + "\n"
    requires host != "" && Wordlike(host) && key != "" && !Blank(key[0])
    ensures SkipBlanks(line, 0, |line|) == 0 && line[0] == host[0]
    ensures SkipWord(line, 0, |line|) == |host|
    ensures SkipBlanks(line, |host|, |line|) == |host| + 1
  {
    var a := |host|;
    assert line[0..a] == host && line[a] == ' ' && line[a + 1] == key[0];
    SkipPiece(line, 0, host, |line|);
    SkipOneBlank(line, a, |line|);
  }

  // ---- No other entry survives

  /** The key part of an entry is what was read as one. */
  predicate FromPart(e: Entry, part: KeyPart) {
    && e.keyType == part.keyType && e.key == part.key && e.comment == part.comment
    && e.keyTypeName == if e.keyType == UnknownKey then Some(part.typeName) else None
  }

  lemma {:induction false} OneEntry(host: HostArg, part: KeyPart, e: Entry)
    requires LineEntry(host, part) == Added([e], Ok)
    ensures FromPart(e, part)
    ensures host.PlainArg? ==> e.name == Plain(host.host)
    ensures host.Sha1Arg? ==> e.name.Sha1?
  {
    var r := LineEntry(host, part).entries;
    assert r[0] == e;
  }

  /** The last name of a list holds no comma, except perhaps at its end. */
  lemma {:induction false} LastNameClean(host: string, i: nat)
    requires i < |host|
    ensures ',' !in host[LastName(host, i)..i]
  {
    if i > 0 && host[i - 1] != ',' {
      LastNameClean(host, i - 1);
      var j := LastName(host, i - 1);
      assert host[j..i] == host[j..i - 1] + [host[i - 1]];
    }
  }

  /** A comma list that gives one entry is its name, or a comma and its name. */
  lemma {:induction false} OneName(host: string, part: KeyPart, e: Entry)
    requires host != "" && AddNames(HostNames(host), part) == Added([e], Ok)
    ensures FromPart(e, part) && e.name.Plain? && (host == e.name.name || host == "," + e.name.name)
    ensures |e.name.name| <= 254 && e.name.name != "" && ',' !in e.name.name[..|e.name.name| - 1]
  {
    hide LineEntry;
    var j := LastName(host, |host| - 1);
    var n := host[j..];
    LastNameClean(host, |host| - 1);
    assert n[..|n| - 1] == host[j..|host| - 1];
    var rest := if j == 0 then [] else HostNames(host[..j - 1]);
    assert HostNames(host) == [n] + rest && ([n] + rest)[1..] == rest;
    EntryOrNone(PlainArg(n), part);
    var first := LineEntry(PlainArg(n), part);
    assert first.rc == Ok && first.entries + AddNames(rest, part).entries == [e];
    assert first.entries[0] == (first.entries + AddNames(rest, part).entries)[0] == e;
    assert first.entries == [e] && AddNames(rest, part).entries == [];
    OneEntry(PlainArg(n), part, e);
    NoNamesLeft(rest, part);
    if j == 1 {
      CommaBefore(host, |host| - 1);
      assert host == "," + n;
    } else {
      assert n == host;
    }
  }

  lemma {:induction false} CommaBefore(host: string, i: nat)
    requires i < |host|
    ensures LastName(host, i) > 0 ==> host[LastName(host, i) - 1] == ','
  {
    if i > 0 && host[i - 1] != ',' {
      CommaBefore(host, i - 1);
    }
  }

  lemma {:induction false} EntryOrNone(host: HostArg, part: KeyPart)
    ensures var r := LineEntry(host, part); r.rc == Ok ==> |r.entries| == 1
  {
  }

  lemma {:induction false} NoNamesLeft(names: seq<string>, part: KeyPart)
    requires AddNames(names, part) == Added([], Ok)
    ensures names == []
  {
    if names != [] {
      EntryOrNone(PlainArg(names[0]), part);
    }
  }

  /** What is read as a key part, from a place that holds no blank. */
  lemma {:induction false} ReadKeyPart(line: string, k: nat, end: nat)
    requires k < end && end + 1 == |line| && line[end] == '\n' && !Blank(line[k])
    ensures var part := ParseKey(line, k, end);
            if Digit(line[k]) then part == KeyPart(Rsa1, "", line[k..end], None)
            else && part.typeName != "" && !HasBlank(part.typeName) && part.typeName[0] == line[k]
                 && part.keyType == NamedType(part.typeName)
                 && ('\n' !in part.key ==> part.key != "" && !HasBlank(part.key))
  {
    if !Digit(line[k]) {
      WordHasNoBlank(line, k, end);
      var t := SkipWord(line, k, end);
      var b := SkipBlanks(line, t, end);
      WordHasNoBlank(line, b, end);
      BlanksPassed(line, t, end);
      var e := SkipWord(line, b, end);
      if b == e {
        assert line[b..][end - b] == '\n';
      }
    }
  }

  predicate HasBlank(s: string) {
    exists i :: 0 <= i < |s| && Blank(s[i])
  }

  lemma {:induction false} WordHasNoBlank(s: string, i: nat, end: nat)
    requires i <= end <= |s|
    ensures !HasBlank(s[i..SkipWord(s, i, end)])
    ensures i < end && !Blank(s[i]) ==> SkipWord(s, i, end) > i
    decreases end - i
  {
    if i < end && !Blank(s[i]) {
      WordHasNoBlank(s, i + 1, end);
      var j := SkipWord(s, i, end);
      forall k | 0 <= k < |s[i..j]|
        ensures !Blank(s[i..j][k])
      {
        assert k > 0 ==> s[i..j][k] == s[i + 1..j][k - 1];
      }
    }
  }

  lemma {:induction false} BlanksPassed(s: string, i: nat, end: nat)
    requires i <= end <= |s|
    ensures var j := SkipBlanks(s, i, end); j < end ==> !Blank(s[j])
    ensures i < end && Blank(s[i]) ==> SkipBlanks(s, i, end) > i
    decreases end - i
  {
    if i < end && Blank(s[i]) {
      BlanksPassed(s, i + 1, end);
    }
  }

  lemma {:induction false} WordEnds(s: string, i: nat, end: nat)
    requires i <= end <= |s|
    ensures var j := SkipWord(s, i, end); j < end ==> Blank(s[j])
    decreases end - i
  {
    if i < end && !Blank(s[i]) {
      WordEnds(s, i + 1, end);
    }
  }

  /** The characters of an entry that prints as one line. */
  lemma {:induction false} PrintedChars(e: Entry)
    requires TypeText(e).Some? && IsLine(PrintLine(e))
    ensures Text(HostText(e.name)) && Text(KeyText(e))
    ensures TextEnd(PrintLine(e)) == |HostText(e.name)| + 1 + |KeyText(e)|
  {
    hide HostText, KeyText;
    var line, host, key := PrintLine(e), HostText(e.name), KeyText(e);
    forall i | 0 <= i < |host|
      ensures Printable(host[i])
    {
      assert line[i] == host[i];
    }
    forall i | 0 <= i < |key|
      ensures Printable(key[i])
    {
      assert line[|host| + 1 + i] == key[i];
    }
  }

  lemma {:induction false} KeyTextChars(e: Entry)
    requires TypeText(e).Some? && Text(KeyText(e))
    ensures Text(e.key) && (e.comment.Some? ==> Text(e.comment.value))
    ensures TypeText(e).value != "" ==> Text(TypeText(e).value)
  {
    var name, text := TypeText(e).value, KeyText(e);
    var at := if name == "" then 0 else |name| + 1;
    assert forall i :: 0 <= i < |e.key| ==> text[at + i] == e.key[i];
    if e.comment.Some? {
      assert forall i :: 0 <= i < |e.comment.value| ==> text[at + |e.key| + 1 + i] == e.comment.value[i];
    }
    if name != "" {
      assert forall i :: 0 <= i < |name| ==> text[i] == name[i];
    }
  }

  /** Where host and key stand in a line that is read as one entry. */
  lemma {:induction false} ParsedPlaces(line: string, e: Entry) returns (h: nat, a: nat, k: nat)
    requires IsLine(line) && line != "" && line[|line| - 1] == '\n' && ParseLine(line) == Added([e], Ok)
    ensures h == SkipBlanks(line, 0, |line|) && h < a == SkipWord(line, h, |line|) < k && k + 20 <= TextEnd(line)
    ensures !Blank(line[k]) && line[h] != '#' && !HasBlank(line[h..a])
    ensures HostLine(line, h, a, k) == Added([e], Ok)
  {
    hide HostLine;
    h := SkipBlanks(line, 0, |line|);
    a := SkipWord(line, h, |line|);
    k := SkipBlanks(line, a, |line|);
    BlanksPassed(line, 0, |line|);
    WordHasNoBlank(line, h, |line|);
    WordEnds(line, h, |line|);
    BlanksPassed(line, a, |line|);
    TwentyLeft(line, h, a, k);
  }

  lemma {:induction false} TwentyLeft(line: string, h: nat, a: nat, k: nat)
    requires h <= a <= k <= TextEnd(line)
    ensures HostLine(line, h, a, k).rc == Ok ==> k + 20 <= TextEnd(line)
  {
  }

  /** What the host part of a line that is read as one entry says. */
  lemma {:induction false} ParsedHost(line: string, h: nat, a: nat, k: nat, e: Entry)
    requires h < a <= k && k + 20 <= TextEnd(line) && HostLine(line, h, a, k) == Added([e], Ok)
    ensures FromPart(e, ParseKey(line, k, TextEnd(line)))
    ensures if a - h > 2 && line[h..h + 3] != "|1|"
            then && e.name.Plain? && line[h..a] in {e.name.name, "," + e.name.name}
                 && 0 < |e.name.name| <= 254 && ',' !in e.name.name[..|e.name.name| - 1]
            else e.name.Sha1? && AddHashed(line, h, a, ParseKey(line, k, TextEnd(line))) == Added([e], Ok)
  {
    hide ParseKey, AddNames, HostNames, LineEntry, TextEnd;
    var part := ParseKey(line, k, TextEnd(line));
    if a - h > 2 && line[h..h + 3] != "|1|" {
      OneName(line[h..a], part, e);
    } else {
      var p := Find(line, '|', h + 3);
      OneEntry(Sha1Arg(line[p + 1..a], line[h + 3..p]), part, e);
    }
  }

  /** An entry that survives has a legible key. */
  lemma {:induction false} KeyNeeds(e: Entry, line: string, k: nat)
    requires TypeText(e).Some? && Text(KeyText(e)) && line != "" && line[|line| - 1] == '\n' && k < TextEnd(line)
    requires !Blank(line[k]) && FromPart(e, ParseKey(line, k, TextEnd(line)))
    requires Text(line[..TextEnd(line)])
    ensures LegibleKey(e)
  {
    hide ParseKey, NamedType;
    KeyTextChars(e);
    ReadKeyPart(line, k, TextEnd(line));
    assert line[..TextEnd(line)][k] == line[k];
    NamedTypes(ParseKey(line, k, TextEnd(line)).typeName);
    assert '\n' !in e.key;
    if e.keyType != Rsa1 {
      NoBlankIsWord(e.key);
    }
    if e.keyTypeName.Some? {
      NoBlankIsWord(e.keyTypeName.value);
    }
  }

  lemma {:induction false} NamedTypes(name: string)
    ensures NamedType(name) in {SshRsa, SshDss, UnknownKey}
  {
  }

  lemma {:induction false} NoBlankIsWord(s: string)
    requires Text(s) && !HasBlank(s)
    ensures Wordlike(s)
  {
  }

  /** A word at the start of a line, and a blank after it. */
  lemma {:induction false} WordFirst(line: string, w: string)
    requires w != "" && Wordlike(w) && |w| < |line| && line[..|w|] == w && Blank(line[|w|])
    ensures SkipBlanks(line, 0, |line|) == 0 && SkipWord(line, 0, |line|) == |w|
  {
    assert line[0] == w[0] && line[0..|w|] == w;
    SkipPiece(line, 0, w, |line|);
  }

  lemma {:induction false} NoBlankInName(host: string, n: string)
    requires host in {n, "," + n} && !HasBlank(host)
    ensures !HasBlank(n)
  {
    if i :| 0 <= i < |n| && Blank(n[i]) {
      assert host == "," + n ==> Blank(host[i + 1]);
    }
  }

  /** An entry with a plain name that survives has a writable name. */
  lemma {:induction false} PlainNeeds(line: string, h: nat, a: nat, n: string)
    requires |n| < |line| && line[..|n|] == n && line[|n|] == ' ' && Text(n) && 0 < |n| <= 254 && ',' !in n[..|n| - 1]
    requires h == SkipBlanks(line, 0, |line|) && h + 2 < a == SkipWord(line, h, |line|)
    requires line[h] != '#' && line[h..h + 3] != "|1|" && !HasBlank(line[h..a]) && line[h..a] in {n, "," + n}
    ensures WritableName(Plain(n)) && h == 0 && a == |n|
  {
    hide WritableName;
    NoBlankInName(line[h..a], n);
    NoBlankIsWord(n);
    WordFirst(line, n);
    assert line[0..|n|] == n;
    WritablePlain(n, line);
  }

  lemma {:induction false} WritablePlain(n: string, line: string)
    requires 3 <= |n| <= 254 && Wordlike(n) && ',' !in n[..|n| - 1] && |n| < |line| && line[..|n|] == n
    requires line[0] != '#' && line[0..3] != "|1|"
    ensures WritableName(Plain(n))
  {
    assert n[0] == line[0] && n[..3] == line[0..3];
  }

  /** An entry with a hashed name that survives has salt and hash of limited size. */
  lemma {:induction false} HashedNeeds(line: string, name: HostName, part: KeyPart)
    requires name.Sha1? && name.salt != [] && name.hash != []
    requires |HostText(name)| < |line| && line[..|HostText(name)|] == HostText(name)
    requires AddHashed(line, 0, |HostText(name)|, part).entries != []
    ensures WritableName(name)
  {
    hide LineEntry;
    var salt, hash := Base64.Encoded(name.salt), Base64.Encoded(name.hash);
    var host, p := HostText(name), 3 + |salt|;
    EncodedIsWordlike(name.salt);
    assert line[p] == host[p] == '|';
    forall k | 3 <= k < p
      ensures line[k] != '|'
    {
      assert line[k] == host[k] == salt[k - 3];
    }
    FindAt(line, '|', 3, p);
    var saltGroups := Base64.EncodedLength(name.salt);
    var hashGroups := Base64.EncodedLength(name.hash);
    assert |host| == p + 1 + |hash|;
  }

  lemma {:induction false} HashedFirst(line: string, name: HostName, key: string)
    requires name.Sha1? && line == HostText(name) + " " + key
    ensures SkipBlanks(line, 0, |line|) == 0 && SkipWord(line, 0, |line|) == |HostText(name)|
    ensures |HostText(name)| >= 4 && line[0..3] == "|1|" && line[..|HostText(name)|] == HostText(name)
  {
    var host := HostText(name);
    EncodedIsWordlike(name.salt);
    EncodedIsWordlike(name.hash);
    assert forall c :: c in "|1|" ==> Printable(c) && !Blank(c);
    assert Wordlike(host);
    assert line[..|host|] == host && line[|host|] == ' ';
    WordFirst(line, host);
    assert line[0..3] == host[..3];
  }

  /** The writer takes the entry, and it prints as one line. */
  predicate PrintsAsLine(e: Entry) {
    && TypeText(e).Some? && (e.name.Sha1? ==> e.name.hash != [] && e.name.salt != [])
    && IsLine(PrintLine(e))
  }

  /** An entry that survives being written and read is legible. */
  lemma {:induction false} SurvivorIsLegible(e: Entry)
    requires PrintsAsLine(e) && ParseLine(PrintLine(e)) == Added([e], Ok)
    ensures Legible(e)
  {
    hide IsLine, ParseLine, HostLine, ParseKey, KeyText, HostText, TextEnd, LegibleKey, WritableName, AddHashed,
         FromPart;
    var line, host, key := PrintLine(e), HostText(e.name), KeyText(e);
    PrintedChars(e);
    KeyTextChars(e);
    assert line[..|host|] == host && line[|host|] == ' ' && line[|line| - 1] == '\n';
    var h, a, k := ParsedPlaces(line, e);
    ParsedHost(line, h, a, k, e);
    assert line[..TextEnd(line)] == host + " " + key;
    assert Text(line[..TextEnd(line)]);
    KeyNeeds(e, line, k);
    if e.name.Plain? {
      PlainText(e.name);
      PlainNeeds(line, h, a, e.name.name);
    } else {
      HashedFirst(line, e.name, key + "\n");
      HashedNeeds(line, e.name, ParseKey(line, k, TextEnd(line)));
    }
  }

  lemma {:induction false} PlainText(name: HostName)
    requires name.Plain?
    ensures HostText(name) == name.name
  {
  }

  /** Of all entries that the writer prints as a line, exactly the writable ones are read back as themselves. */
  lemma {:induction false} SurvivesExactly(e: Entry)
    requires PrintsAsLine(e)
    ensures ParseLine(PrintLine(e)) == Added([e], Ok) <==> Writable(e)
  {
    hide ParseLine, PrintLine, Legible;
    if ParseLine(PrintLine(e)) == Added([e], Ok) {
      SurvivorIsLegible(e);
      LineRoundTripExactly(e);
    }
    if Writable(e) {
      LineRoundTripExactly(e);
    }
  }

  // ---- Whole collections

  predicate AllWritable(entries: seq<Entry>) {
    forall i :: 0 <= i < |entries| ==> Writable(entries[i])
  }

  predicate AllLines(lines: seq<string>) {
    forall i :: 0 <= i < |lines| ==> IsLine(lines[i])
  }

  /** Reading lines in order, up to the first one that fails. */
  function ParseLines(lines: seq<string>): (r: Added)
    requires AllLines(lines)
  {
    if lines == [] then Added([], Ok) else
    var front := ParseLines(lines[..|lines| - 1]);
    if front.rc != Ok then front else
    var last := ParseLine(lines[|lines| - 1]);
    Added(front.entries + last.entries, last.rc)
  }

  function PrintLines(entries: seq<Entry>): (lines: seq<string>)
    requires AllWritable(entries)
  {
    if entries == [] then [] else
    PrintLines(entries[..|entries| - 1]) + [PrintLine(entries[|entries| - 1])]
  }

  lemma {:induction false} ParseLinesStep(front: seq<string>, line: string)
    requires AllLines(front) && IsLine(line) && ParseLines(front).rc == Ok
    ensures AllLines(front + [line])
    ensures ParseLines(front + [line]) == Added(ParseLines(front).entries + ParseLine(line).entries, ParseLine(line).rc)
  {
    assert (front + [line])[..|front|] == front;
  }

  /** Reading the lines of a written collection gives the collection back. */
  lemma {:induction false} CollectionRoundTrip(entries: seq<Entry>)
    requires AllWritable(entries)
    ensures AllLines(PrintLines(entries)) && ParseLines(PrintLines(entries)) == Added(entries, Ok)
  {
    hide ParseLine, PrintLine, IsLine;
    if entries != [] {
      var front, e := entries[..|entries| - 1], entries[|entries| - 1];
      CollectionRoundTrip(front);
      LineRoundTrip(e);
      ParseLinesStep(PrintLines(front), PrintLine(e));
      assert entries == front + [e];
    }
  }
}
