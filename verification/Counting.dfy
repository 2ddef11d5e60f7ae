/** Counting the elements of a sequence that satisfy a predicate. */
module Counting {

  function CountIf<T>(s: seq<T>, p: T -> bool): nat {
    if s == [] then 0 else CountIf(s[..|s| - 1], p) + (if p(s[|s| - 1]) then 1 else 0)
  }

  function One(b: bool): nat {
    if b then 1 else 0
  }

  lemma {:induction false} CountUpdate<T>(s: seq<T>, p: T -> bool, i: nat, x: T)
    requires i < |s|
    ensures CountIf(s[i := x], p) == CountIf(s, p) - One(p(s[i])) + One(p(x))
  {
    if i == |s| - 1 {
      assert s[i := x][..i] == s[..i];
    } else {
      assert s[i := x][..|s| - 1] == s[..|s| - 1][i := x];
      CountUpdate(s[..|s| - 1], p, i, x);
    }
  }

  lemma {:induction false} CountPositive<T>(s: seq<T>, p: T -> bool)
    ensures CountIf(s, p) > 0 <==> exists i :: 0 <= i < |s| && p(s[i])
  {
    if s != [] {
      CountPositive(s[..|s| - 1], p);
      var last := |s| - 1;
      if exists i :: 0 <= i < |s| && p(s[i]) {
        var i :| 0 <= i < |s| && p(s[i]);
        assert i < last ==> p(s[..last][i]);
      }
    }
  }

  lemma {:induction false} CountTwo<T>(s: seq<T>, p: T -> bool, i: nat, j: nat)
    requires i < j < |s| && p(s[i]) && p(s[j])
    ensures CountIf(s, p) >= 2
  {
    if j == |s| - 1 {
      assert p(s[..j][i]);
      CountPositive(s[..j], p);
    } else {
      CountTwo(s[..|s| - 1], p, i, j);
    }
  }

  /** With at most one such element, two of them are the same. */
  lemma AtMostOne<T>(s: seq<T>, p: T -> bool, i: nat, j: nat)
    requires i < |s| && j < |s| && p(s[i]) && p(s[j]) && CountIf(s, p) <= 1
    ensures i == j
  {
    if i < j {
      CountTwo(s, p, i, j);
    } else if j < i {
      CountTwo(s, p, j, i);
    }
  }

  lemma {:induction false} CountNone<T>(s: seq<T>, p: T -> bool)
    requires forall i :: 0 <= i < |s| ==> !p(s[i])
    ensures CountIf(s, p) == 0
  {
    if s != [] {
      CountNone(s[..|s| - 1], p);
    }
  }

  lemma {:induction false} CountAll<T>(s: seq<T>, p: T -> bool)
    requires forall i :: 0 <= i < |s| ==> p(s[i])
    ensures CountIf(s, p) == |s|
  {
    if s != [] {
      CountAll(s[..|s| - 1], p);
    }
  }
}
