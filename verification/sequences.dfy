/** Python list operations used by the chat server, stated on Dafny sequences. */
module Sequences {

  /** No element occurs twice. */
  predicate Distinct<T(==)>(s: seq<T>) {
    forall i, j :: 0 <= i < j < |s| ==> s[i] != s[j]
  }

  /** Python's `list.index`: the position of the first occurrence of `x`. */
  function IndexOf<T(==)>(s: seq<T>, x: T): (i: nat)
    requires x in s
    ensures i < |s| && s[i] == x
    ensures x !in s[..i]
  {
    if s[0] == x then 0
    else
      assert x in s[1..] by { var k :| 0 <= k < |s| && s[k] == x; assert s[1..][k - 1] == x; }
      var i := 1 + IndexOf(s[1..], x);
      assert s[..i] == [s[0]] + s[1..][..i - 1];
      i
  }

  /** Python's `list.remove` guarded by a membership test: drop the first occurrence of
      `x`, and leave the list alone when `x` is absent. */
  function RemoveFirst<T(==)>(s: seq<T>, x: T): (r: seq<T>)
    ensures x in s ==> |r| == |s| - 1
    ensures x in s ==> var i := IndexOf(s, x); r[..i] == s[..i] && r[i..] == s[i + 1..]
    ensures x !in s ==> r == s
  {
    if x in s then
      var i := IndexOf(s, x);
      s[..i] + s[i + 1..]
    else
      s
  }

  /** Removing the first occurrence of a value at or before position `i - 1` shifts
      everything from position `i` on down by one. */
  lemma {:induction false} RemoveFirstShifts<T>(s: seq<T>, i: nat)
    requires 0 < i <= |s|
    ensures var r := RemoveFirst(s, s[i - 1]);
            |r| == |s| - 1 && r[i - 1..] == s[i..]
  {
    var x := s[i - 1];
    var p := IndexOf(s, x);
    var r := RemoveFirst(s, x);
    assert r == s[..p] + s[p + 1..];
    assert r[i - 1..] == s[i..] by {
      forall k | i - 1 <= k < |r| ensures r[k] == s[k + 1] { }
    }
  }

  /** The list that results from `RemoveFirst` applied to each element of `xs` in turn. */
  function RemoveAll<T(==)>(s: seq<T>, xs: seq<T>): (r: seq<T>)
    ensures |r| <= |s|
    decreases |xs|
  {
    if |xs| == 0 then s else RemoveFirst(RemoveAll(s, xs[..|xs| - 1]), xs[|xs| - 1])
  }

  /** Removing one more value after a batch of removals. */
  lemma RemoveAllSnoc<T>(s: seq<T>, xs: seq<T>, x: T)
    ensures RemoveAll(s, xs + [x]) == RemoveFirst(RemoveAll(s, xs), x)
  {
    assert (xs + [x])[..|xs|] == xs;
  }

  /** Removals of values other than the last element leave the last element in place. */
  lemma {:induction false} RemoveAllKeepsLast<T>(s: seq<T>, xs: seq<T>, x: T)
    requires x !in xs
    ensures RemoveAll(s + [x], xs) == RemoveAll(s, xs) + [x]
    decreases |xs|
  {
    if |xs| > 0 {
      var front := xs[..|xs| - 1];
      var y := xs[|xs| - 1];
      assert x !in front by { assert forall z :: z in front ==> z in xs; }
      RemoveAllKeepsLast(s, front, x);
      RemoveFirstBeforeLast(RemoveAll(s, front), x, y);
    }
  }

  /** Removing a value different from the last element works on the front part only. */
  lemma RemoveFirstBeforeLast<T>(t: seq<T>, x: T, y: T)
    requires y != x
    ensures RemoveFirst(t + [x], y) == RemoveFirst(t, y) + [x]
  {
    if y in t {
      var i := IndexOf(t, y);
      assert (t + [x])[i] == y && y !in (t + [x])[..i] by { assert (t + [x])[..i] == t[..i]; }
      assert IndexOf(t + [x], y) == i;
      assert (t + [x])[i + 1..] == t[i + 1..] + [x];
    } else {
      assert y !in t + [x];
    }
  }

  /** On a list without duplicates, removing first occurrences removes exactly the listed
      values and keeps the list free of duplicates. */
  lemma {:induction false} RemoveAllDistinct<T>(s: seq<T>, xs: seq<T>)
    requires Distinct(s)
    ensures Distinct(RemoveAll(s, xs))
    ensures forall y :: y in RemoveAll(s, xs) <==> y in s && y !in xs
    decreases |xs|
  {
    if |xs| > 0 {
      var front := xs[..|xs| - 1];
      var x := xs[|xs| - 1];
      RemoveAllDistinct(s, front);
      var t := RemoveAll(s, front);
      RemoveFirstDistinct(t, x);
      assert xs == front + [x];
    }
  }

  /** Removing the first occurrence of `x` from a duplicate-free list removes every `x`. */
  lemma RemoveFirstDistinct<T>(s: seq<T>, x: T)
    requires Distinct(s)
    ensures Distinct(RemoveFirst(s, x))
    ensures forall y :: y in RemoveFirst(s, x) <==> y in s && y != x
  {
    if x in s {
      var i := IndexOf(s, x);
      RemoveAtDistinct(s, i);
    }
  }

  /** Deleting position `i` of a duplicate-free list. */
  lemma RemoveAtDistinct<T>(s: seq<T>, i: nat)
    requires Distinct(s) && i < |s|
    ensures var r := s[..i] + s[i + 1..];
            Distinct(r) && forall y :: y in r <==> y in s && y != s[i]
  {
    var r := s[..i] + s[i + 1..];
    assert forall k :: 0 <= k < |r| ==> r[k] == s[if k < i then k else k + 1];
    forall y | y in s && y != s[i] ensures y in r {
      var k :| 0 <= k < |s| && s[k] == y;
      assert r[if k < i then k else k - 1] == y;
    }
  }

  /** Reference definition of "every element but `x`, in order": what a broadcast without
      failures reaches when `x` is the sender. */
  function Without<T(==)>(s: seq<T>, x: T): (r: seq<T>)
    ensures forall k :: 0 <= k < |r| ==> r[k] in s && r[k] != x
    ensures forall k :: 0 <= k < |s| && s[k] != x ==> s[k] in r
    ensures |r| <= |s|
  {
    if |s| == 0 then []
    else if s[0] == x then Without(s[1..], x)
    else [s[0]] + Without(s[1..], x)
  }
}
