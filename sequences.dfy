/** Operations on lists that the address book performs in place, stated on values. */
module Sequences {

  /** No two positions hold equal elements. */
  ghost predicate Distinct<T>(s: seq<T>) {
    forall i, j :: 0 <= i < j < |s| ==> s[i] != s[j]
  }

  /** Python's `list.remove(x)`: drop the first element equal to `x`, if any. */
  function RemoveFirst<T(==)>(s: seq<T>, x: T): (r: seq<T>)
    ensures x !in s ==> r == s
    ensures x in s ==> |r| == |s| - 1
    ensures multiset(r) + (if x in s then multiset{x} else multiset{}) == multiset(s)
  {
    if s == [] then []
    else if s[0] == x then
      assert s == [s[0]] + s[1..];
      s[1..]
    else
      assert s == [s[0]] + s[1..];
      [s[0]] + RemoveFirst(s[1..], x)
  }

  /** Write `y` over the first element equal to `x`, if any. */
  function ReplaceFirst<T(==)>(s: seq<T>, x: T, y: T): (r: seq<T>)
    ensures |r| == |s|
    ensures x !in s ==> r == s
  {
    if s == [] then []
    else if s[0] == x then [y] + s[1..]
    else [s[0]] + ReplaceFirst(s[1..], x, y)
  }

  /** Removing the first occurrence at index `i` splices out exactly that
      element and keeps the others in order. */
  lemma {:induction false} RemoveFirstAt<T>(s: seq<T>, x: T, i: nat)
    requires i < |s| && s[i] == x && x !in s[..i]
    ensures RemoveFirst(s, x) == s[..i] + s[i + 1..]
  {
    if i > 0 {
      assert s[0] != x by { assert s[0] == s[..i][0]; }
      assert x !in s[1..][..i - 1] by { assert s[1..][..i - 1] == s[..i][1..]; }
      RemoveFirstAt(s[1..], x, i - 1);
      assert s[1..][..i - 1] == s[1..i];
      assert s[..i] == [s[0]] + s[1..i];
    }
  }

  /** Replacing the first occurrence at index `i` changes that index only. */
  lemma {:induction false} ReplaceFirstAt<T>(s: seq<T>, x: T, y: T, i: nat)
    requires i < |s| && s[i] == x && x !in s[..i]
    ensures ReplaceFirst(s, x, y) == s[i := y]
  {
    if i > 0 {
      assert s[0] != x by { assert s[0] == s[..i][0]; }
      assert x !in s[1..][..i - 1] by { assert s[1..][..i - 1] == s[..i][1..]; }
      ReplaceFirstAt(s[1..], x, y, i - 1);
      assert [s[0]] + s[1..][i - 1 := y] == s[i := y];
    } else {
      assert [y] + s[1..] == s[0 := y];
    }
  }

  /** Splicing one element out of a duplicate-free list leaves it
      duplicate-free and without that element. */
  lemma SpliceDistinct<T>(s: seq<T>, i: nat)
    requires Distinct(s) && i < |s|
    ensures Distinct(s[..i] + s[i + 1..]) && s[i] !in s[..i] + s[i + 1..]
  {
    var r := s[..i] + s[i + 1..];
    assert forall k :: 0 <= k < |r| ==> r[k] == s[if k < i then k else k + 1];
  }

  /** Removal keeps a duplicate-free list duplicate-free and takes `x` out of it. */
  lemma RemoveFirstDistinct<T>(s: seq<T>, x: T)
    requires Distinct(s)
    ensures Distinct(RemoveFirst(s, x)) && x !in RemoveFirst(s, x)
  {
    if x in s {
      var i :| 0 <= i < |s| && s[i] == x;
      RemoveFirstAt(s, x, i);
      SpliceDistinct(s, i);
    }
  }

  /** Removing `x` from a list keeps every other element on it. */
  lemma RemoveFirstMembers<T>(s: seq<T>, x: T, y: T)
    requires y != x
    ensures y in RemoveFirst(s, x) <==> y in s
  {
    var r := RemoveFirst(s, x);
    assert multiset(r)[y] == multiset(s)[y];
  }

  /** Replacing the first `x` by `y` in a duplicate-free list that holds `x`
      keeps it duplicate-free exactly when `y` is `x` itself or is new. */
  lemma ReplaceFirstDistinct<T>(s: seq<T>, x: T, y: T)
    requires Distinct(s) && x in s
    ensures Distinct(ReplaceFirst(s, x, y)) <==> (y == x || y !in s)
  {
    var i :| 0 <= i < |s| && s[i] == x;
    assert x !in s[..i];
    ReplaceFirstAt(s, x, y, i);
    var r := s[i := y];
    if y != x && y in s {
      var j :| 0 <= j < |s| && s[j] == y;
      assert j != i && r[j] == y && r[i] == y;
      if j < i { assert !Distinct(r); } else { assert !Distinct(r); }
    }
  }
}
