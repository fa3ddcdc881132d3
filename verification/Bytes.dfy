/**
 Octets, 32-bit unsigned integers and the big-endian encodings of section 5 of
 RFC 4251: `uint32` and `string`.  The writers fill a buffer at a cursor, as
 the C functions do through a moving pointer.
 */
module Bytes {

  type byte = b: int | 0 <= b < 256

  const TWO_32: int := 0x1_0000_0000

  type uint32 = n: int | 0 <= n < 0x1_0000_0000

  datatype Option<+T> = None | Some(value: T)

  /** The four octets of `n`, most significant first. */
  function U32(n: uint32): (s: seq<byte>)
    ensures |s| == 4
  {
    [n / 0x100_0000, n / 0x1_0000 % 256, n / 256 % 256, n % 256]
  }

  /** The number that four octets spell. */
  function NtohU32(s: seq<byte>): (n: uint32)
    requires |s| >= 4
  {
    s[0] as int * 0x100_0000 + s[1] as int * 0x1_0000 + s[2] as int * 256 + s[3]
  }

  /** The number whose digits in base 256 are these octets, the highest first. */
  function Number(s: seq<byte>): nat {
    if s == [] then 0 else Number(s[..|s| - 1]) * 256 + s[|s| - 1]
  }

  lemma {:induction false} NumberOfFour(s: seq<byte>)
    requires |s| == 4
    ensures Number(s) == s[0] as int * 0x100_0000 + s[1] as int * 0x1_0000 + s[2] as int * 256 + s[3]
  {
    assert s[..3][..2] == s[..2] && s[..2][..1] == s[..1] && s[..1][..0] == [];
    assert Number(s[..1]) == s[0];
    assert Number(s[..2]) == s[0] as int * 256 + s[1];
    assert Number(s[..3]) == s[0] as int * 0x1_0000 + s[1] as int * 256 + s[2];
  }

  /** Writing and reading are in network order: the octets are the digits of the number in base 256. */
  lemma {:induction false} NetworkOrder(n: uint32, s: seq<byte>)
    requires |s| >= 4
    ensures Number(U32(n)) == n && NtohU32(s) == Number(s[..4])
  {
    hide Number;
    NumberOfFour(U32(n));
    NumberOfFour(s[..4]);
    U32RoundTrip(n, []);
    assert U32(n) + [] == U32(n);
  }

  /** Reading back what was written, whatever follows it in the buffer. */
  lemma U32RoundTrip(n: uint32, rest: seq<byte>)
    ensures NtohU32(U32(n) + rest) == n
  {
    assert n == n / 256 * 256 + n % 256;
    assert n / 256 == n / 0x1_0000 * 256 + n / 256 % 256;
    assert n / 0x1_0000 == n / 0x100_0000 * 256 + n / 0x1_0000 % 256;
    assert (U32(n) + rest)[..4] == U32(n);
  }

  /** Writing back what was read: the encoding has no second spelling. */
  lemma U32Injective(s: seq<byte>)
    requires |s| == 4
    ensures U32(NtohU32(s)) == s
  {
    var n := NtohU32(s);
    assert n % 256 == s[3];
    assert n / 256 == s[0] as int * 0x1_0000 + s[1] as int * 256 + s[2];
    assert n / 0x1_0000 == s[0] as int * 256 + s[1];
    assert n / 0x100_0000 == s[0];
  }

  /** A length-prefixed string. */
  function Str(s: seq<byte>): (r: seq<byte>)
    requires |s| < TWO_32
    ensures |r| == 4 + |s|
  {
    U32(|s|) + s
  }

  /** Writes a number at a place, in network order. */
  method HtonU32(buf: array<byte>, at: nat, n: uint32)
    requires at + 4 <= buf.Length
    modifies buf
    ensures buf[at..at + 4] == U32(n)
    ensures buf[..at] == old(buf[..at]) && buf[at + 4..] == old(buf[at + 4..])
  {
    buf[at] := n / 0x100_0000;
    buf[at + 1] := n / 0x1_0000 % 256;
    buf[at + 2] := n / 256 % 256;
    buf[at + 3] := n % 256;
  }

  /** Stores a number at the cursor and moves the cursor past it. */
  method StoreU32(buf: array<byte>, s: nat, n: uint32) returns (next: nat)
    requires s + 4 <= buf.Length
    modifies buf
    ensures next == s + 4
    ensures buf[..next] == old(buf[..s]) + U32(n)
    ensures buf[next..] == old(buf[next..])
  {
    HtonU32(buf, s, n);
    next := s + 4;
    assert buf[..next] == buf[..s] + buf[s..next];
  }

  /** Copies octets to the cursor and moves the cursor past them. */
  method Copy(buf: array<byte>, s: nat, str: seq<byte>) returns (next: nat)
    requires s + |str| <= buf.Length
    modifies buf
    ensures next == s + |str|
    ensures buf[..next] == old(buf[..s]) + str
    ensures buf[next..] == old(buf[next..])
  {
    next := s + |str|;
    forall i | 0 <= i < |str| {
      buf[s + i] := str[i];
    }
    assert buf[..next] == buf[..s] + buf[s..next];
    assert buf[s..next] == str;
  }

  /** Stores a length-prefixed string at the cursor. */
  method StoreStr(buf: array<byte>, s: nat, str: seq<byte>) returns (next: nat)
    requires |str| < TWO_32 && s + 4 + |str| <= buf.Length
    modifies buf
    ensures next == s + 4 + |str|
    ensures buf[..next] == old(buf[..s]) + Str(str)
    ensures buf[next..] == old(buf[next..])
  {
    ghost var before := buf[..];
    next := StoreU32(buf, s, |str|);
    assert forall i :: 0 <= i < buf.Length - next ==> buf[next..][i] == before[next..][i];
    if |str| > 0 {
      next := Copy(buf, next, str);
    }
    assert buf[..next] == before[..s] + (U32(|str|) + str);
  }

  /** 32-bit arithmetic: only the sum or difference counts. */
  lemma {:induction false} AddMod(a: int, n: int)
    ensures (a % TWO_32 + n) % TWO_32 == (a + n) % TWO_32
  {
    var q := a / TWO_32;
    assert a + n == q * TWO_32 + (a % TWO_32 + n);
    ModShift(q, a % TWO_32 + n);
  }

  lemma {:induction false} SubMod(a: int, n: int)
    ensures (a % TWO_32 - n) % TWO_32 == (a - n) % TWO_32
  {
    var q := a / TWO_32;
    assert a - n == q * TWO_32 + (a % TWO_32 - n);
    ModShift(q, a % TWO_32 - n);
  }

  lemma {:induction false} ModShift(q: int, r: int)
    ensures (q * TWO_32 + r) % TWO_32 == r % TWO_32
  {
  }

  function Min(a: int, b: int): int { if a <= b then a else b }
}
