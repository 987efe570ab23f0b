/** Sequences of handles in which nothing occurs twice. */
module Sequences {

  ghost predicate Unique(s: seq<nat>) {
    forall i, j :: 0 <= i < j < |s| ==> s[i] != s[j]
  }

  function Minus(s: seq<nat>, x: nat): seq<nat> {
    if s == [] then [] else if s[0] == x then s[1..] else [s[0]] + Minus(s[1..], x)
  }

  lemma {:induction false} MinusCount(s: seq<nat>, x: nat)
    ensures multiset(Minus(s, x)) == multiset(s) - multiset{x}
  {
    if s != [] {
      var first, rest := s[0], s[1..];
      assert s == [first] + rest;
      assert multiset(s) == multiset{first} + multiset(rest);
      if first != x {
        MinusCount(rest, x);
        assert multiset(Minus(s, x)) == multiset{first} + multiset(Minus(rest, x));
      }
    }
  }

  lemma {:induction false} MinusOnly(s: seq<nat>, x: nat)
    requires Unique(s)
    ensures Unique(Minus(s, x)) && forall y :: y in Minus(s, x) <==> y in s && y != x
    ensures x in s ==> |Minus(s, x)| == |s| - 1
  {
    if s != [] {
      var tail := s[1..];
      assert s == [s[0]] + tail;
      assert s[0] !in tail;
      MinusOnly(tail, x);
      if s[0] != x {
        ConsUnique(s[0], Minus(tail, x));
      }
    }
  }

  lemma ConsUnique(x: nat, s: seq<nat>)
    requires Unique(s) && x !in s
    ensures Unique([x] + s) && forall y :: y in [x] + s <==> y == x || y in s
  {
  }

  lemma SnocUnique(s: seq<nat>, x: nat)
    requires Unique(s) && x !in s
    ensures Unique(s + [x]) && forall y :: y in s + [x] <==> y in s || y == x
  {
  }

  /** Taking out the first occurrence. */
  lemma {:induction false} MinusAt(s: seq<nat>, i: nat, x: nat)
    requires i < |s| && s[i] == x && forall k :: 0 <= k < i ==> s[k] != x
    ensures Minus(s, x) == s[..i] + s[i + 1..]
  {
    if i > 0 {
      MinusAt(s[1..], i - 1, x);
    }
  }
}
