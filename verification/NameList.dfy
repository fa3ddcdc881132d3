/**
 Comma-separated name lists of section 5 of RFC 4251 and the search that key
 exchange does in them.
 */
module NameList {
  import opened Bytes

  type Name = seq<byte>

  const COMMA: byte := 44

  /** The first comma from `i` on, the end of the list if there is none. */
  function NextComma(s: Name, i: nat): (j: nat)
    requires i <= |s|
    ensures i <= j <= |s|
    ensures j < |s| ==> s[j] == COMMA
    ensures forall k :: i <= k < j ==> s[k] != COMMA
    decreases |s| - i
  {
    if i < |s| && s[i] != COMMA then NextComma(s, i + 1) else i
  }

  /** The names of a list, from position `i` on. */
  function NamesFrom(s: Name, i: nat): (names: seq<Name>)
    requires i <= |s|
    ensures |names| >= 1
    decreases |s| - i
  {
    var j := NextComma(s, i);
    [s[i..j]] + if j == |s| then [] else NamesFrom(s, j + 1)
  }

  function Names(s: Name): (names: seq<Name>)
    ensures |names| >= 1
  {
    NamesFrom(s, 0)
  }

  /** Where name `k` of a list starts. */
  function Start(names: seq<Name>, k: nat): nat
    requires k <= |names|
  {
    if k == 0 then 0 else Start(names, k - 1) + |names[k - 1]| + 1
  }

  function Join(names: seq<Name>): (s: Name)
  {
    if names == [] then []
    else if |names| == 1 then names[0]
    else names[0] + [COMMA] + Join(names[1..])
  }

  /** A name that can stand in a list. */
  predicate GoodName(n: Name) {
    n != [] && COMMA !in n
  }

  predicate GoodNames(names: seq<Name>) {
    forall i :: 0 <= i < |names| ==> GoodName(names[i])
  }

  /** Position of the first name equal to `needle`, the number of names if none is. */
  function FirstIndex(names: seq<Name>, needle: Name): (k: nat)
    ensures k <= |names|
    ensures k < |names| ==> names[k] == needle
    ensures forall i :: 0 <= i < k ==> names[i] != needle
    ensures k == |names| <==> needle !in names
  {
    if names == [] || names[0] == needle then 0 else FirstIndex(names[1..], needle) + 1
  }

  /** `needle` stands at `s` in the list and ends at a comma or at the end. */
  predicate NeedleAt(haystack: Name, s: nat, needle: Name) {
    && s + |needle| <= |haystack|
    && haystack[s..s + |needle|] == needle
    && (s + |needle| == |haystack| || haystack[s + |needle|] == COMMA)
  }

  /** At the start of a name, a match is a match of the whole name. */
  lemma {:induction false} NeedleIsName(haystack: Name, s: nat, needle: Name)
    requires s <= |haystack| && COMMA !in needle
    ensures NeedleAt(haystack, s, needle) <==> haystack[s..NextComma(haystack, s)] == needle
  {
    var j := NextComma(haystack, s);
    if NeedleAt(haystack, s, needle) {
      var e := s + |needle|;
      forall k | s <= k < e
        ensures haystack[k] != COMMA
      {
        assert haystack[k] == needle[k - s];
      }
      assert j == e;
    }
  }

  /**
   Searches for a name in a list.  The answer is where the first name equal to
   the needle starts; there is none exactly when no name is equal to it.
   */
  method AgreeInstr(haystack: Name, needle: Name) returns (found: Option<nat>)
    requires COMMA !in needle
    ensures var k := FirstIndex(Names(haystack), needle);
            found == if k == |Names(haystack)| then None else Some(Start(Names(haystack), k))
  {
    hide NamesFrom, Start, FirstIndex, NextComma;
    ghost var names := Names(haystack);
    FirstNames(haystack);
    if |haystack| < |needle| {
      TooShort(haystack, needle, 0);
      return None;
    }
    NeedleIsName(haystack, 0, needle);
    if haystack[..|needle|] == needle && (|needle| == |haystack| || haystack[|needle|] == COMMA) {
      FirstAtIndex(names, needle, 0);
      return Some(0);
    }
    var s := 0;
    ghost var i, k := 0, 0;
    while true
      invariant s == i <= |haystack| && k < |names|
      invariant NamesFrom(haystack, i) == names[k..] && Start(names, k) == i
      invariant forall a :: 0 <= a <= k ==> names[a] != needle
      decreases |haystack| - i
    {
      s := FindComma(haystack, s);
      NextNames(haystack, i, names, k);
      if s == |haystack| {
        break;
      }
      if |haystack| - s <= |needle| {
        TooShort(haystack, needle, s + 1);
        assert names == names[..k + 1] + names[k + 1..];
        break;
      }
      s := s + 1;
      NeedleIsName(haystack, s, needle);
      FirstName(haystack, s, names, k + 1);
      if haystack[s..s + |needle|] == needle && (s + |needle| == |haystack| || haystack[s + |needle|] == COMMA) {
        FirstAtIndex(names, needle, k + 1);
        return Some(s);
      }
      i, k := s, k + 1;
    }
    return None;
  }

  /** `strchr` for a comma. */
  method FindComma(s: Name, from: nat) returns (j: nat)
    requires from <= |s|
    ensures j == NextComma(s, from)
  {
    j := from;
    while j < |s| && s[j] != COMMA
      invariant from <= j <= |s| && NextComma(s, j) == NextComma(s, from)
    {
      j := j + 1;
    }
  }

  /** A list shorter than the needle does not hold it. */
  lemma {:induction false} TooShort(haystack: Name, needle: Name, i: nat)
    requires i <= |haystack| && |haystack| - i < |needle|
    ensures needle !in NamesFrom(haystack, i)
    ensures i == 0 ==> needle !in Names(haystack)
    decreases |haystack| - i
  {
    var j := NextComma(haystack, i);
    if j < |haystack| {
      TooShort(haystack, needle, j + 1);
    }
  }

  lemma {:induction false} FirstNames(haystack: Name)
    ensures var names := Names(haystack);
            && NamesFrom(haystack, 0) == names[0..] && Start(names, 0) == 0
            && names[0] == haystack[0..NextComma(haystack, 0)]
  {
  }

  lemma {:induction false} FirstName(haystack: Name, s: nat, names: seq<Name>, k: nat)
    requires s <= |haystack| && k < |names| && NamesFrom(haystack, s) == names[k..]
    ensures names[k] == haystack[s..NextComma(haystack, s)]
  {
    assert names[k] == names[k..][0];
  }

  /** From one name to the next, or to the end of the list. */
  lemma {:induction false} NextNames(haystack: Name, i: nat, names: seq<Name>, k: nat)
    requires i <= |haystack| && k < |names| && NamesFrom(haystack, i) == names[k..] && Start(names, k) == i
    ensures i <= NextComma(haystack, i) <= |haystack|
    ensures var j := NextComma(haystack, i);
            if j == |haystack| then k + 1 == |names|
            else k + 1 < |names| && NamesFrom(haystack, j + 1) == names[k + 1..] && Start(names, k + 1) == j + 1
  {
    assert names[k..][1..] == names[k + 1..];
    assert names[k] == names[k..][0];
  }

  lemma {:induction false} FirstAtIndex(names: seq<Name>, needle: Name, k: nat)
    requires k < |names| && names[k] == needle && forall i :: 0 <= i < k ==> names[i] != needle
    ensures FirstIndex(names, needle) == k && Start(names, 0) == 0
  {
  }

  /** Splitting a joined list gives the names back. */
  lemma {:induction false} NamesOfJoin(names: seq<Name>)
    requires names != [] && forall i :: 0 <= i < |names| ==> COMMA !in names[i]
    ensures Names(Join(names)) == names
  {
    NamesFromJoin([], names);
    assert [] + Join(names) == Join(names);
  }

  lemma {:induction false} NamesFromJoin(pre: Name, names: seq<Name>)
    requires names != [] && forall i :: 0 <= i < |names| ==> COMMA !in names[i]
    ensures NamesFrom(pre + Join(names), |pre|) == names
    decreases |names|
  {
    hide Join, NextComma;
    HeadOfJoin(pre, names);
    if |names| > 1 {
      NamesFromJoin(pre + names[0] + [COMMA], names[1..]);
      assert names == [names[0]] + names[1..];
    }
  }

  /** The first name of a joined list, and what follows it. */
  lemma {:induction false} HeadOfJoin(pre: Name, names: seq<Name>)
    requires names != [] && COMMA !in names[0]
    ensures var s := pre + Join(names);
            var j := NextComma(s, |pre|);
            && s[|pre|..j] == names[0]
            && (|names| == 1 ==> j == |s|)
            && (|names| > 1 ==>
                  && j < |s| && j + 1 == |pre + names[0] + [COMMA]|
                  && s == pre + names[0] + [COMMA] + Join(names[1..]))
  {
    hide NextComma;
    var s := pre + Join(names);
    var e := |pre| + |names[0]|;
    assert s[|pre|..e] == names[0];
    assert forall k :: |pre| <= k < e ==> s[k] == names[0][k - |pre|];
    if |names| > 1 {
      assert s == pre + names[0] + [COMMA] + Join(names[1..]);
      assert s[e] == COMMA;
    }
    assert NextComma(s, |pre|) == e;
  }

  lemma {:induction false} NamesFromStep(s: Name, i: nat)
    requires i <= |s|
    ensures var j := NextComma(s, i);
            NamesFrom(s, i) == [s[i..j]] + if j == |s| then [] else NamesFrom(s, j + 1)
  {
  }

  lemma {:induction false} CommaAt(s: Name, i: nat, j: nat)
    requires i <= j < |s| && s[j] == COMMA
    ensures s[i..] == s[i..j] + [COMMA] + s[j + 1..]
  {
  }

  lemma {:induction false} JoinOne(n: Name)
    ensures Join([n] + []) == n
  {
  }

  lemma {:induction false} JoinCons(n: Name, rest: seq<Name>)
    requires rest != []
    ensures Join([n] + rest) == n + [COMMA] + Join(rest)
  {
    assert ([n] + rest)[1..] == rest;
  }

  /** Joining the names of a list gives the list back. */
  lemma {:induction false} JoinOfNames(s: Name, i: nat)
    requires i <= |s|
    ensures Join(NamesFrom(s, i)) == s[i..]
    decreases |s| - i
  {
    hide NextComma, Join, NamesFrom;
    NamesFromStep(s, i);
    var j := NextComma(s, i);
    if j < |s| {
      JoinOfNames(s, j + 1);
      JoinCons(s[i..j], NamesFrom(s, j + 1));
      CommaAt(s, i, j);
    } else {
      JoinOne(s[i..j]);
    }
  }
}
