/**
 Key derivation of section 7.2 of RFC 4253: a key is cut from the stream
 K1 || K2 || ..., where each block hashes all blocks before it.
 */
module KeyDerivation {
  import opened Bytes

  /** A hash function of the crypto library and the length of its digests. */
  datatype Hash = Hash(apply: seq<byte> -> seq<byte>, size: nat) {
    ghost predicate Valid() {
      size > 0 && forall x :: |apply(x)| == size
    }
  }

  /** The inputs that all keys of an exchange share. */
  datatype Secret = Secret(k: seq<byte>, h: seq<byte>, sessionId: seq<byte>)

  /** Block `n` of the stream, counted from one, after the blocks before it. */
  function Block(hash: Hash, s: Secret, letter: byte, before: seq<byte>, n: nat): seq<byte> {
    hash.apply(s.k + s.h + if n == 1 then [letter] + s.sessionId else before)
  }

  /** The first `n` blocks. */
  function Stream(hash: Hash, s: Secret, letter: byte, n: nat): seq<byte> {
    if n == 0 then [] else
    var before := Stream(hash, s, letter, n - 1);
    before + Block(hash, s, letter, before, n)
  }

  lemma {:induction false} StreamLength(hash: Hash, s: Secret, letter: byte, n: nat)
    requires hash.Valid()
    ensures |Stream(hash, s, letter, n)| == n * hash.size
  {
    if n > 0 {
      StreamLength(hash, s, letter, n - 1);
      var before := Stream(hash, s, letter, n - 1);
      assert |Block(hash, s, letter, before, n)| == hash.size;
      assert n * hash.size == (n - 1) * hash.size + hash.size;
    }
  }

  /** More blocks never change the ones before. */
  lemma {:induction false} StreamPrefix(hash: Hash, s: Secret, letter: byte, m: nat, n: nat)
    requires m <= n
    ensures Stream(hash, s, letter, m) <= Stream(hash, s, letter, n)
  {
    if m < n {
      StreamPrefix(hash, s, letter, m, n - 1);
    }
  }

  /**
   Digest `j` of a text: K1 = HASH(K || H || letter || session id), and every later
   one is HASH(K || H || all digests before it).
   */
  ghost predicate DigestAt(hash: Hash, s: Secret, letter: byte, text: seq<byte>, j: nat) {
    var from, to := j * hash.size, j * hash.size + hash.size;
    && 0 <= from && to <= |text|
    && text[from..to] == hash.apply(if j == 0 then s.k + s.h + [letter] + s.sessionId else s.k + s.h + text[..from])
  }

  /** More text behind a digest does not matter. */
  lemma {:induction false} DigestStays(hash: Hash, s: Secret, letter: byte, text: seq<byte>, more: seq<byte>, j: nat)
    requires text <= more && DigestAt(hash, s, letter, text, j)
    ensures DigestAt(hash, s, letter, more, j)
  {
    var from, to := j * hash.size, j * hash.size + hash.size;
    assert more[from..to] == text[from..to] && more[..from] == text[..from];
  }

  lemma {:induction false} StreamDigest(hash: Hash, s: Secret, letter: byte, n: nat, j: nat)
    requires hash.Valid() && j < n
    ensures DigestAt(hash, s, letter, Stream(hash, s, letter, n), j)
  {
    var before := Stream(hash, s, letter, n - 1);
    StreamLength(hash, s, letter, n - 1);
    if j < n - 1 {
      StreamDigest(hash, s, letter, n - 1, j);
      DigestStays(hash, s, letter, before, Stream(hash, s, letter, n), j);
    } else {
      var block := Block(hash, s, letter, before, n);
      var text := before + block;
      assert text[|before|..|before| + hash.size] == block && text[..|before|] == before;
      assert s.k + s.h + [letter] + s.sessionId == s.k + s.h + ([letter] + s.sessionId);
    }
  }

  /** How many blocks are needed for a length. */
  function Blocks(reqlen: nat, size: nat): nat
    requires size > 0
  {
    (reqlen + size - 1) / size
  }

  lemma {:induction false} BlocksEnough(reqlen: nat, size: nat)
    requires size > 0
    ensures reqlen <= Blocks(reqlen, size) * size < reqlen + size
  {
    var n := reqlen + size - 1;
    assert n == n / size * size + n % size;
  }

  /** The key of a requested length. */
  ghost function Key(hash: Hash, s: Secret, letter: byte, reqlen: nat): (key: seq<byte>)
    requires hash.Valid()
    ensures |key| == reqlen
  {
    StreamLength(hash, s, letter, Blocks(reqlen, hash.size));
    BlocksEnough(reqlen, hash.size);
    Stream(hash, s, letter, Blocks(reqlen, hash.size))[..reqlen]
  }

  /** The key is what any long enough stretch of the stream starts with. */
  lemma {:induction false} KeyIsPrefixOfStream(hash: Hash, s: Secret, letter: byte, reqlen: nat, n: nat)
    requires hash.Valid() && reqlen <= n * hash.size
    ensures Key(hash, s, letter, reqlen) <= Stream(hash, s, letter, n)
  {
    var m := Blocks(reqlen, hash.size);
    StreamLength(hash, s, letter, m);
    StreamLength(hash, s, letter, n);
    BlocksEnough(reqlen, hash.size);
    if m <= n {
      StreamPrefix(hash, s, letter, m, n);
    } else {
      StreamPrefix(hash, s, letter, n, m);
    }
  }

  /** A shorter key is the start of a longer one. */
  lemma {:induction false} ShorterKeyIsPrefix(hash: Hash, s: Secret, letter: byte, a: nat, b: nat)
    requires hash.Valid() && a <= b
    ensures Key(hash, s, letter, a) <= Key(hash, s, letter, b)
  {
    var n := Blocks(b, hash.size);
    BlocksEnough(b, hash.size);
    StreamLength(hash, s, letter, n);
    KeyIsPrefixOfStream(hash, s, letter, a, n);
  }

  /**
   The derivation loop.  It fills a buffer of the requested length plus one
   digest, digest by digest; the key is the start of what it leaves there.
   */
  method Derive(hash: Hash, s: Secret, letter: byte, reqlen: nat) returns (value: array<byte>)
    requires hash.Valid()
    ensures fresh(value) && value.Length == reqlen + hash.size
    ensures value[..reqlen] == Key(hash, s, letter, reqlen)
    ensures forall j: nat :: j * hash.size < reqlen ==> DigestAt(hash, s, letter, value[..], j)
  {
    hide Block, DigestAt;
    value := new byte[reqlen + hash.size](_ => 0);
    var len := 0;
    ghost var n := 0;
    while len < reqlen
      invariant len == n * hash.size && len < reqlen + hash.size
      invariant value[..len] == Stream(hash, s, letter, n)
      invariant n > 0 ==> len > 0
    {
      var input := s.k + s.h;
      if len > 0 {
        input := input + value[..len];
      } else {
        input := input + ([letter] + s.sessionId);
      }
      var digest := hash.apply(input);
      BlockIs(hash, s, letter, value[..len], n + 1, digest);
      len := Copy(value, len, digest);
      assert (n + 1) * hash.size == n * hash.size + hash.size;
      n := n + 1;
    }
    KeyIsPrefixOfStream(hash, s, letter, reqlen, n);
    assert value[..reqlen] == value[..len][..reqlen];
    forall j: nat | j * hash.size < reqlen
      ensures DigestAt(hash, s, letter, value[..], j)
    {
      Below(j, n, hash.size);
      StreamDigest(hash, s, letter, n, j);
      DigestStays(hash, s, letter, value[..len], value[..], j);
    }
  }

  lemma {:induction false} Below(j: nat, n: nat, size: nat)
    requires j * size < n * size
    ensures j < n
  {
    assert (n - j) * size == n * size - j * size;
  }

  lemma {:induction false} BlockIs(hash: Hash, s: Secret, letter: byte, before: seq<byte>, n: nat, digest: seq<byte>)
    requires n >= 1 && (before == [] <==> n == 1)
    requires digest == hash.apply(s.k + s.h + if before != [] then before else [letter] + s.sessionId)
    ensures digest == Block(hash, s, letter, before, n)
  {
  }
}
