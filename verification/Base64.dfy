/**
 Base64 as the library writes and reads it (section 4 of RFC 4648): padded on
 output, tolerant on input, where every character outside the alphabet is
 skipped.
 */
module Base64 {
  import opened Bytes

  /** The alphabet. */
  function Table64(v: int): (c: char)
    requires 0 <= v < 64
  {
    if v < 26 then 'A' + v as char
    else if v < 52 then 'a' + (v - 26) as char
    else if v < 62 then '0' + (v - 52) as char
    else if v == 62 then '+' else '/'
  }

  /** The reverse table: -1 outside the alphabet. */
  function Reverse(c: char): (v: int)
    ensures -1 <= v < 64
  {
    if 'A' <= c <= 'Z' then c as int - 'A' as int
    else if 'a' <= c <= 'z' then c as int - 'a' as int + 26
    else if '0' <= c <= '9' then c as int - '0' as int + 52
    else if c == '+' then 62
    else if c == '/' then 63
    else -1
  }

  /** Table 1 of RFC 4648. */
  const UPPER: string := "ABCDEFGHIJKLMNOPQRSTUVWXYZ"
  const LOWER: string := "abcdefghijklmnopqrstuvwxyz"
  const OTHERS: string := "0123456789+/"

  /** Both tables are the alphabet: the place of a character in it is its value, and no other character has one. */
  lemma {:induction false} Alphabet(v: int, c: char)
    requires 0 <= v < 64
    ensures var alphabet := UPPER + LOWER + OTHERS;
            && |alphabet| == 64 && Table64(v) == alphabet[v]
            && (Reverse(c) == v <==> c == alphabet[v]) && (Reverse(c) == -1 <==> c !in alphabet)
  {
    hide *;
    UpperIs();
    LowerIs();
    OthersIs();
    AlphabetOf(UPPER, LOWER, OTHERS, v, c);
  }

  lemma {:induction false} AlphabetOf(upper: string, lower: string, others: string, v: int, c: char)
    requires 0 <= v < 64 && |upper| == |lower| == 26 && |others| == 12
    requires forall i :: 0 <= i < 26 ==> upper[i] == 'A' + i as char && lower[i] == 'a' + i as char
    requires forall i :: 0 <= i < 10 ==> others[i] == '0' + i as char
    requires others[10] == '+' && others[11] == '/'
    ensures var alphabet := upper + lower + others;
            && |alphabet| == 64 && Table64(v) == alphabet[v]
            && (Reverse(c) == v <==> c == alphabet[v]) && (Reverse(c) == -1 <==> c !in alphabet)
  {
    var alphabet := upper + lower + others;
    assert forall i :: 0 <= i < 64 ==>
             alphabet[i] == if i < 26 then upper[i] else if i < 52 then lower[i - 26] else others[i - 52];
    var x := Reverse(c);
    if x >= 0 {
      assert alphabet[x] == c;
    }
  }

  lemma {:induction false} UpperIs()
    ensures |UPPER| == 26 && forall i :: 0 <= i < 26 ==> UPPER[i] == 'A' + i as char
  {
  }

  lemma {:induction false} LowerIs()
    ensures |LOWER| == 26 && forall i :: 0 <= i < 26 ==> LOWER[i] == 'a' + i as char
  {
  }

  lemma {:induction false} OthersIs()
    ensures |OTHERS| == 12 && OTHERS[10] == '+' && OTHERS[11] == '/'
    ensures forall i :: 0 <= i < 10 ==> OTHERS[i] == '0' + i as char
  {
  }

  /** The 6-bit values that a text spells, in order, other characters skipped. */
  function Sextets(s: string): (v: seq<int>)
    ensures SixBit(v)
  {
    if s == "" then [] else
    var x := Reverse(s[0]);
    if x < 0 then Sextets(s[1..]) else [x] + Sextets(s[1..])
  }

  predicate SixBit(v: seq<int>) {
    forall i :: 0 <= i < |v| ==> 0 <= v[i] < 64
  }

  /**
   Octets finished so far, how many 6-bit values of the current group were
   taken, and the bits they left for the octet in progress.
   */
  datatype Packing = Packing(done: seq<byte>, phase: nat, bits: nat) {
    predicate Valid() {
      phase < 4 && (phase == 1 ==> bits < 64) && (phase == 2 ==> bits < 16) && (phase == 3 ==> bits < 4)
    }

    /** Four 6-bit values give three octets. */
    function Take(x: int): (p: Packing)
      requires Valid() && 0 <= x < 64
      ensures p.Valid()
    {
      if phase == 0 then Packing(done, 1, x)
      else if phase == 1 then Packing(done + [bits * 4 + x / 16], 2, x % 16)
      else if phase == 2 then Packing(done + [bits * 16 + x / 4], 3, x % 4)
      else Packing(done + [bits * 64 + x], 0, 0)
    }

    function TakeAll(v: seq<int>): (p: Packing)
      requires Valid() && SixBit(v)
      ensures p.Valid()
      decreases |v|
    {
      if v == [] then this else Take(v[0]).TakeAll(v[1..])
    }
  }

  const START := Packing([], 0, 0)

  /** What decoding a text gives: nothing when a lone 6-bit value is left over. */
  function Decoded(s: string): (r: Option<seq<byte>>)
  {
    var p := START.TakeAll(Sextets(s));
    if p.phase == 1 then None else Some(p.done)
  }

  /** Octet `i`, with zero past the end. */
  function At(data: seq<byte>, i: nat): (b: byte) {
    if i < |data| then data[i] else 0
  }

  /** The four 6-bit values of up to three octets. */
  function Split(t: seq<byte>): (v: seq<int>)
    ensures |v| == 4 && SixBit(v)
  {
    var b0: int, b1: int, b2: int := At(t, 0), At(t, 1), At(t, 2);
    [b0 / 4, b0 % 4 * 16 + b1 / 16, b1 % 16 * 4 + b2 / 64, b2 % 64]
  }

  /** The four values are the digits, in base 64, of the number that the octets, filled up with zeros,
      spell in base 256. */
  lemma {:induction false} SplitDigits(t: seq<byte>)
    ensures var v := Split(t);
            v[0] * 0x4_0000 + v[1] * 0x1000 + v[2] * 64 + v[3]
            == At(t, 0) as int * 0x1_0000 + At(t, 1) as int * 256 + At(t, 2)
  {
    var b0: int, b1: int, b2: int := At(t, 0), At(t, 1), At(t, 2);
    assert b0 == b0 / 4 * 4 + b0 % 4 && b1 == b1 / 16 * 16 + b1 % 16 && b2 == b2 / 64 * 64 + b2 % 64;
  }

  /** 6-bit values as characters. */
  function Letters(v: seq<int>): (s: string)
    requires SixBit(v)
    ensures |s| == |v|
  {
    if v == [] then "" else [Table64(v[0])] + Letters(v[1..])
  }

  lemma {:induction false} LettersAt(v: seq<int>, k: nat)
    requires SixBit(v) && k < |v|
    ensures Letters(v)[k] == Table64(v[k])
  {
    if k > 0 {
      LettersAt(v[1..], k - 1);
    }
  }

  /** One to three octets as four characters, padded. */
  function Group(t: seq<byte>): (s: string)
    requires 1 <= |t| <= 3
    ensures |s| == 4
  {
    Letters(Split(t)[..|t| + 1]) + "=="[..3 - |t|]
  }

  function Encoded(data: seq<byte>): (s: string)
  {
    if data == [] then ""
    else if |data| <= 3 then Group(data)
    else Group(data[..3]) + Encoded(data[3..])
  }

  /** Four characters for every three octets begun. */
  lemma {:induction false} EncodedLength(data: seq<byte>) returns (groups: nat)
    ensures |Encoded(data)| == 4 * groups
    ensures 3 * groups - 3 < |data| <= 3 * groups
  {
    if |data| <= 3 {
      groups := if data == [] then 0 else 1;
    } else {
      groups := EncodedLength(data[3..]);
      groups := groups + 1;
    }
  }

  lemma {:induction false} GroupsFit(n: nat, groups: nat)
    requires 3 * groups - 3 < n <= 3 * groups
    ensures 4 * groups + 1 <= n * 4 / 3 + 4
    ensures n % 3 == 1 ==> 4 * groups + 1 == n * 4 / 3 + 4
  {
  }

  /** Length of the C string that starts a memory area. */
  function StrLen(s: seq<byte>): (n: nat)
    requires 0 in s
    ensures n < |s| && s[n] == 0 && 0 !in s[..n]
  {
    if s[0] == 0 then 0 else
    assert s == [s[0]] + s[1..];
    var n := StrLen(s[1..]);
    assert s[..n + 1] == [s[0]] + s[1..][..n];
    n + 1
  }

  /**
   Encodes `insize` octets, or a C string when `insize` is zero, into a buffer
   of `insize*4/3+4` characters.  `filled` counts the characters written, the
   terminator included.
   */
  method Encode(inp: seq<byte>, insize: nat) returns (text: string, filled: nat)
    requires insize <= |inp|
    requires insize == 0 ==> 0 in inp
    ensures var n := if insize == 0 then StrLen(inp) else insize;
            && text == Encoded(inp[..n])
            && filled == |text| + 1 <= n * 4 / 3 + 4
            && (n % 3 == 1 ==> filled == n * 4 / 3 + 4)
  {
    var n := insize;
    if n == 0 {
      n := StrLen(inp);
    }
    ghost var groups := EncodedLength(inp[..n]);
    GroupsFit(n, groups);
    var buf := new char[n * 4 / 3 + 4];
    var output := Fill(inp, n, buf, 4 * groups);
    buf[output] := '\0';
    text := buf[..output];
    filled := output + 1;
  }

  /** The encoding loop. */
  method Fill(inp: seq<byte>, n: nat, buf: array<char>, ghost total: nat) returns (output: nat)
    requires n <= |inp| && |Encoded(inp[..n])| == total < buf.Length
    modifies buf
    ensures output == total && buf[..output] == Encoded(inp[..n])
  {
    hide Encoded;
    output := 0;
    var indata := 0;
    ghost var goal, rest := Encoded(inp[..n]), Encoded(inp[..n]);
    while indata < n
      invariant indata <= n && rest == Encoded(inp[indata..n])
      invariant output + |rest| == total && buf[..output] + rest == goal
    {
      ghost var written, left := buf[..output], rest;
      ghost var g;
      indata, g := FillGroup(inp, indata, n, buf, output);
      output := output + 4;
      rest := Encoded(inp[indata..n]);
      assert written + (g + rest) == written + g + rest;
    }
    EncodedNone(inp[n..n]);
  }

  /** One turn of the loop: the next octets go out as the four characters `g`. */
  method FillGroup(inp: seq<byte>, indata: nat, n: nat, buf: array<char>, output: nat)
    returns (next: nat, ghost g: string)
    requires indata < n <= |inp| && output + |Encoded(inp[indata..n])| < buf.Length
    modifies buf
    ensures indata < next <= n && |g| == 4 && output + 4 < buf.Length
    ensures Encoded(inp[indata..n]) == g + Encoded(inp[next..n])
    ensures buf[..output + 4] == old(buf[..output]) + g
  {
    ghost var rest := inp[indata..n];
    var parts, b0, b1, b2;
    next, parts, b0, b1, b2 := Gather(inp, indata, n);
    assert inp[indata..next] == rest[..parts] && inp[next..n] == rest[parts..];
    EncodedStep(rest, parts);
    WriteGroup(buf, output, b0, b1, b2, parts, rest[..parts]);
    g := Group(rest[..parts]);
  }

  lemma {:induction false} EncodedNone(rest: seq<byte>)
    requires rest == []
    ensures Encoded(rest) == ""
  {
  }

  lemma {:induction false} EncodedStep(rest: seq<byte>, parts: nat)
    requires 1 <= parts <= |rest| && parts == if |rest| >= 3 then 3 else |rest|
    ensures Encoded(rest) == Group(rest[..parts]) + Encoded(rest[parts..])
  {
    assert |rest| == parts ==> rest[..parts] == rest;
  }

  /** Writes four characters and a terminator. */
  method WriteGroup(buf: array<char>, output: nat, b0: int, b1: int, b2: int, parts: nat, ghost t: seq<byte>)
    requires output + 4 < buf.Length && 1 <= |t| == parts <= 3
    requires b0 == At(t, 0) && b1 == At(t, 1) && b2 == At(t, 2)
    modifies buf
    ensures buf[..output + 4] == old(buf[..output]) + Group(t)
  {
    buf[output] := Table64(b0 / 4);
    buf[output + 1] := Table64(b0 % 4 * 16 + b1 / 16);
    buf[output + 2] := if parts == 1 then '=' else Table64(b1 % 16 * 4 + b2 / 64);
    buf[output + 3] := if parts <= 2 then '=' else Table64(b2 % 64);
    buf[output + 4] := '\0';
    ghost var v := Split(t)[..parts + 1];
    forall k | 0 <= k < 4
      ensures buf[output + k] == Group(t)[k]
    {
      if k <= parts {
        LettersAt(v, k);
      }
    }
    assert buf[..output + 4] == buf[..output] + buf[output..output + 4];
  }

  /** Takes the next one to three octets, with zeros for the missing ones. */
  method Gather(inp: seq<byte>, start: nat, n: nat) returns (next: nat, parts: nat, b0: int, b1: int, b2: int)
    requires start < n <= |inp|
    ensures next == start + parts == if start + 3 <= n then start + 3 else n
    ensures var t := inp[start..next]; b0 == At(t, 0) && b1 == At(t, 1) && b2 == At(t, 2)
  {
    next, parts := start, 0;
    var ibuf: array<byte> := new byte[3](_ => 0);
    for i := 0 to 3
      invariant parts == if i <= n - start then i else n - start
      invariant next == start + parts
      invariant forall j :: 0 <= j < i ==> ibuf[j] == if start + j < n then inp[start + j] else 0
    {
      if next < n {
        parts := parts + 1;
        ibuf[i] := inp[next];
        next := next + 1;
      } else {
        ibuf[i] := 0;
      }
    }
    b0, b1, b2 := ibuf[0], ibuf[1], ibuf[2];
  }

  /** Shifting left in an octet drops the bits that fall out. */
  lemma {:induction false} ShiftLeft(v: int)
    requires 0 <= v < 64
    ensures v * 4 % 256 == v * 4
    ensures v * 16 % 256 == v % 16 * 16
    ensures v * 64 % 256 == v % 4 * 64
  {
    var a, b := v / 16, v / 4;
    assert v % 16 * 16 == v * 16 - 256 * a && v % 4 * 64 == v * 64 - 256 * b;
  }

  /** The bits in progress, where the decoder keeps them in the next octet. */
  function Shifted(p: Packing): int {
    match p.phase
    case 1 => p.bits * 4
    case 2 => p.bits * 16
    case _ => p.bits * 64
  }

  /** Adds one 6-bit value to the buffer: the four cases of the decoder. */
  method Put(d: array<byte>, len: nat, v: int, phase: nat, ghost p: Packing) returns (next: nat)
    requires p.Valid() && p.phase == phase && 0 <= v < 64
    requires len + (if phase == 1 || phase == 2 then 1 else 0) < d.Length
    requires d[..len] == p.done && (phase != 0 ==> d[len] == Shifted(p))
    modifies d
    ensures next == len + if phase == 0 then 0 else 1
    ensures d[..next] == p.Take(v).done
    ensures phase != 3 ==> d[next] == Shifted(p.Take(v))
  {
    ShiftLeft(v);
    next := len;
    if phase == 0 {
      d[next] := v * 4 % 256;
    } else if phase == 1 {
      d[next] := d[next] + v / 16;
      next := next + 1;
      d[next] := v * 16 % 256;
    } else if phase == 2 {
      d[next] := d[next] + v / 4;
      next := next + 1;
      d[next] := v * 64 % 256;
    } else {
      d[next] := d[next] + v;
      next := next + 1;
    }
  }

  /**
   Decodes into a buffer of `3*src_len/4+1` octets.  Verification of the body
   shows that no write leaves that buffer, for any text.
   */
  method Decode(src: string) returns (r: Option<seq<byte>>)
    ensures r == Decoded(src)
    ensures r.Some? ==> |r.value| <= 3 * |src| / 4
  {
    var d := new byte[3 * |src| / 4 + 1];
    var i, len := 0, 0;
    ghost var p, groups := START, 0;
    for s := 0 to |src|
      invariant p.Valid() && i == 4 * groups + p.phase <= s
      invariant len == 3 * groups + if p.phase == 0 then 0 else p.phase - 1
      invariant d[..len] == p.done && (p.phase != 0 ==> d[len] == Shifted(p))
      invariant p.TakeAll(Sextets(src[s..])) == START.TakeAll(Sextets(src))
    {
      assert src[s..][1..] == src[s + 1..];
      var v := Reverse(src[s]);
      if v < 0 {
        continue;
      }
      TakeAllStep(p, v, Sextets(src[s + 1..]));
      len := Put(d, len, v, i % 4, p);
      groups := if p.phase == 3 then groups + 1 else groups;
      p := p.Take(v);
      i := i + 1;
    }
    if i % 4 == 1 {
      return None;
    }
    r := Some(d[..len]);
  }

  lemma {:induction false} TakeAllStep(p: Packing, x: int, v: seq<int>)
    requires p.Valid() && 0 <= x < 64 && SixBit(v)
    ensures p.TakeAll([x] + v) == p.Take(x).TakeAll(v)
  {
    assert ([x] + v)[1..] == v;
  }

  lemma {:induction false} ReverseOfTable(v: int)
    requires 0 <= v < 64
    ensures Reverse(Table64(v)) == v
  {
  }

  lemma {:induction false} SextetsStep(c: char, s: string)
    ensures Sextets([c] + s) == if Reverse(c) < 0 then Sextets(s) else [Reverse(c)] + Sextets(s)
  {
    assert ([c] + s)[1..] == s;
  }

  /** Characters of the alphabet that spell `q`, then characters to skip. */
  lemma {:induction false} SextetsOfPadded(g: string, q: seq<int>, s: string)
    requires |q| <= |g| && SixBit(q)
    requires forall k :: 0 <= k < |g| ==> Reverse(g[k]) == if k < |q| then q[k] else -1
    ensures Sextets(g + s) == q + Sextets(s)
  {
    if g == "" {
      assert g + s == s;
    } else {
      assert g + s == [g[0]] + (g[1..] + s);
      SextetsStep(g[0], g[1..] + s);
      if q == [] {
        SextetsOfPadded(g[1..], [], s);
      } else {
        SextetsOfPadded(g[1..], q[1..], s);
        assert q + Sextets(s) == [q[0]] + (q[1..] + Sextets(s));
      }
    }
  }

  lemma {:induction false} ReverseOfGroup(t: seq<byte>)
    requires 1 <= |t| <= 3
    ensures forall k :: 0 <= k < 4 ==> Reverse(Group(t)[k]) == if k <= |t| then Split(t)[k] else -1
  {
    var v := Split(t)[..|t| + 1];
    forall k | 0 <= k <= |t|
      ensures Reverse(Group(t)[k]) == Split(t)[k]
    {
      LettersAt(v, k);
      ReverseOfTable(v[k]);
    }
  }

  /** A group spells one 6-bit value more than it has octets. */
  lemma {:induction false} SextetsOfGroup(t: seq<byte>, s: string)
    requires 1 <= |t| <= 3
    ensures Sextets(Group(t) + s) == Split(t)[..|t| + 1] + Sextets(s)
  {
    ReverseOfGroup(t);
    SextetsOfPadded(Group(t), Split(t)[..|t| + 1], s);
  }

  lemma {:induction false} SplitBits(b0: byte, b1: byte, b2: byte)
    ensures b0 / 4 * 4 + (b0 % 4 * 16 + b1 / 16) / 16 == b0
    ensures (b0 % 4 * 16 + b1 / 16) % 16 * 16 + (b1 % 16 * 4 + b2 / 64) / 4 == b1
    ensures (b1 % 16 * 4 + b2 / 64) % 4 * 64 + b2 % 64 == b2
  {
  }

  /** The first two values of a group give its first octet. */
  lemma {:induction false} TakeTwo(p: Packing, q0: int, q1: int, v: seq<int>)
    requires p.Valid() && p.phase == 0 && 0 <= q0 < 64 && 0 <= q1 < 64 && SixBit(v)
    ensures p.TakeAll([q0] + ([q1] + v)) == Packing(p.done + [q0 * 4 + q1 / 16], 2, q1 % 16).TakeAll(v)
  {
    TakeAllStep(p, q0, [q1] + v);
    TakeAllStep(p.Take(q0), q1, v);
  }

  /** The last two values of a full group give its other octets. */
  lemma {:induction false} TakeLastTwo(p: Packing, q2: int, q3: int, v: seq<int>)
    requires p.Valid() && p.phase == 2 && 0 <= q2 < 64 && 0 <= q3 < 64 && SixBit(v)
    ensures p.TakeAll([q2] + ([q3] + v))
              == Packing(p.done + [p.bits * 16 + q2 / 4] + [q2 % 4 * 64 + q3], 0, 0).TakeAll(v)
  {
    TakeAllStep(p, q2, [q3] + v);
    TakeAllStep(p.Take(q2), q3, v);
  }

  /** Packing the values of a full group appends its three octets. */
  lemma {:induction false} TakeFullGroup(p: Packing, t: seq<byte>, v: seq<int>)
    requires p.Valid() && p.phase == 0 && |t| == 3 && SixBit(v)
    ensures p.TakeAll(Split(t) + v) == Packing(p.done + t, 0, 0).TakeAll(v)
  {
    var q := Split(t);
    SplitBits(t[0], t[1], t[2]);
    TakeTwo(p, q[0], q[1], [q[2]] + ([q[3]] + v));
    TakeLastTwo(Packing(p.done + [t[0]], 2, q[1] % 16), q[2], q[3], v);
    assert q + v == [q[0]] + ([q[1]] + ([q[2]] + ([q[3]] + v)));
    assert p.done + [t[0]] + [t[1]] + [t[2]] == p.done + t;
  }

  /** Packing the values of a short last group appends its one or two octets. */
  lemma {:induction false} TakeShortGroup(p: Packing, t: seq<byte>)
    requires p.Valid() && p.phase == 0 && 1 <= |t| <= 2
    ensures p.TakeAll(Split(t)[..|t| + 1]).done == p.done + t
    ensures p.TakeAll(Split(t)[..|t| + 1]).phase != 1
  {
    var q := Split(t);
    SplitBits(t[0], At(t, 1), 0);
    var rest := q[2..|t| + 1];
    TakeTwo(p, q[0], q[1], rest);
    assert q[..|t| + 1] == [q[0]] + ([q[1]] + rest);
    var p2 := Packing(p.done + [t[0]], 2, q[1] % 16);
    if |t| == 2 {
      assert rest == [q[2]] + [];
      TakeAllStep(p2, q[2], []);
      assert p.done + [t[0]] + [t[1]] == p.done + t;
    }
  }

  lemma {:induction false} TakeEncoded(p: Packing, data: seq<byte>)
    requires p.Valid() && p.phase == 0
    ensures p.TakeAll(Sextets(Encoded(data))).done == p.done + data
    ensures p.TakeAll(Sextets(Encoded(data))).phase != 1
    decreases |data|
  {
    if 0 < |data| <= 3 {
      SextetsOfGroup(data, "");
      assert Group(data) + "" == Group(data);
      if |data| == 3 {
        TakeFullGroup(p, data, []);
        assert Split(data)[..4] + Sextets("") == Split(data) + [];
      } else {
        TakeShortGroup(p, data);
        assert Split(data)[..|data| + 1] + Sextets("") == Split(data)[..|data| + 1];
      }
    } else if data != [] {
      var t, rest := data[..3], data[3..];
      SextetsOfGroup(t, Encoded(rest));
      TakeFullGroup(p, t, Sextets(Encoded(rest)));
      assert Split(t)[..4] == Split(t);
      TakeEncoded(Packing(p.done + t, 0, 0), rest);
      assert p.done + t + rest == p.done + data;
    }
  }

  /** Decoding what was encoded gives the octets back, for every octet string. */
  lemma {:induction false} RoundTrip(data: seq<byte>)
    ensures Decoded(Encoded(data)) == Some(data)
  {
    TakeEncoded(START, data);
    assert START.done + data == data;
  }

  predicate InAlphabet(c: char) {
    Reverse(c) >= 0 || c == '='
  }

  /** Encoded text uses the alphabet and the padding sign only. */
  lemma {:induction false} EncodedAlphabet(data: seq<byte>)
    ensures forall k :: 0 <= k < |Encoded(data)| ==> InAlphabet(Encoded(data)[k])
  {
    if data != [] {
      ReverseOfGroup(if |data| <= 3 then data else data[..3]);
      if |data| > 3 {
        EncodedAlphabet(data[3..]);
      }
    }
  }
}
