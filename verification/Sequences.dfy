/** Facts about sequences that several modules use. */
module Sequences {

  ghost predicate Distinct<T>(s: seq<T>) {
    forall i, j :: 0 <= i < j < |s| ==> s[i] != s[j]
  }

  // The elements of `s`.
  ghost function SetOf<T>(s: seq<T>): set<T> {
    set x | x in s
  }

  // The first occurrence of `x` taken out.
  function Without<T(==)>(s: seq<T>, x: T): seq<T> {
    if s == [] then [] else if s[0] == x then s[1..] else [s[0]] + Without(s[1..], x)
  }

  lemma {:induction false} WithoutMembers<T>(s: seq<T>, x: T)
    requires Distinct(s)
    ensures Distinct(Without(s, x)) && forall y :: y in Without(s, x) <==> y in s && y != x
    ensures x in s ==> |Without(s, x)| + 1 == |s|
  {
    if s != [] {
      assert s == [s[0]] + s[1..];
      WithoutMembers(s[1..], x);
      assert s[0] !in s[1..];
    }
  }

  // The element at position `i` taken out.
  function CutAt<T>(s: seq<T>, i: nat): seq<T>
    requires i < |s|
  {
    s[..i] + s[i + 1..]
  }

  lemma CutMembers<T>(s: seq<T>, i: nat)
    requires Distinct(s) && i < |s|
    ensures Distinct(CutAt(s, i)) && forall y :: y in CutAt(s, i) <==> y in s && y != s[i]
  {
    var r := CutAt(s, i);
    forall y ensures y in r <==> y in s && y != s[i] {
      if y in s && y != s[i] {
        var k :| 0 <= k < |s| && s[k] == y;
        assert r[if k < i then k else k - 1] == y;
      }
      if y in r {
        var k :| 0 <= k < |r| && r[k] == y;
        assert y == s[if k < i then k else k + 1];
      }
    }
  }

  // What is last once an element has been taken out.
  lemma CutLast<T>(s: seq<T>, i: nat)
    requires Distinct(s) && i < |s|
    ensures var r := CutAt(s, i);
            && |r| == |s| - 1 && (r == [] <==> |s| == 1)
            && (i < |r| ==> r[|r| - 1] == s[|s| - 1])
            && (i == |r| ==> s[|s| - 1] !in r)
  {
    CutMembers(s, i);
  }
}
