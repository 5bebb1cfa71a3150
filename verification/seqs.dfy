/** Generic facts about sequences used by the hashtag pipeline: order-preserving
    filtering (a Python list comprehension with an `if`), "occurs before",
    absence of duplicates and the index of a first occurrence. */
module Seqs {

  /** The elements of `s` that satisfy `keep`, in their original order. */
  function Filter<T(!new)>(keep: T -> bool, s: seq<T>): (r: seq<T>)
    ensures |r| <= |s|
    ensures forall x :: x in r <==> x in s && keep(x)
  {
    if |s| == 0 then []
    else (if keep(s[0]) then [s[0]] else []) + Filter(keep, s[1..])
  }

  /** `x` occurs in `s` strictly before an occurrence of `y`. */
  ghost predicate Before<T>(s: seq<T>, x: T, y: T) {
    exists i, j :: 0 <= i < j < |s| && s[i] == x && s[j] == y
  }

  /** No element occurs twice. */
  predicate NoDup<T(==)>(s: seq<T>) {
    forall i, j :: 0 <= i < j < |s| ==> s[i] != s[j]
  }

  /** The position of the first occurrence of `x` in `s`, or `|s|` when `x`
      does not occur. */
  function FirstIndex<T(==)>(s: seq<T>, x: T): (i: nat)
    ensures i <= |s|
    ensures i < |s| <==> x in s
    ensures i < |s| ==> s[i] == x
    ensures x !in s[..i]
  {
    if |s| == 0 then 0
    else if s[0] == x then 0
    else
      assert s == [s[0]] + s[1..];
      var k := FirstIndex(s[1..], x);
      assert s[..k + 1] == [s[0]] + s[1..][..k];
      k + 1
  }

  /** Appending an element does not move the first occurrence of anything
      already present, and a new element first occurs at the end. */
  lemma FirstIndexAppend<T>(s: seq<T>, z: T, x: T)
    ensures x in s ==> FirstIndex(s + [z], x) == FirstIndex(s, x)
    ensures x !in s && x == z ==> FirstIndex(s + [z], x) == |s|
  {
    var i := FirstIndex(s + [z], x);
    assert forall k :: 0 <= k < |s| ==> (s + [z])[k] == s[k];
    if x in s {
      var j := FirstIndex(s, x);
      assert (s + [z])[..i] == s[..i];
    }
  }

  /** Filtering keeps the relative order of the elements it keeps. */
  lemma {:induction false} FilterKeepsOrder<T(!new)>(keep: T -> bool, s: seq<T>, x: T, y: T)
    requires Before(s, x, y) && keep(x) && keep(y)
    ensures Before(Filter(keep, s), x, y)
  {
    var i, j :| 0 <= i < j < |s| && s[i] == x && s[j] == y;
    var t := Filter(keep, s[1..]);
    assert Filter(keep, s) == [s[0]] + t || Filter(keep, s) == t;
    if i == 0 {
      assert s[1..][j - 1] == y;
      var k := FirstIndex(t, y);
      assert Filter(keep, s) == [x] + t;
      assert ([x] + t)[0] == x && ([x] + t)[k + 1] == y;
    } else {
      assert s[1..][i - 1] == x && s[1..][j - 1] == y;
      FilterKeepsOrder(keep, s[1..], x, y);
      BeforePrepend(s[0], t, x, y);
    }
  }

  /** An order in `t` survives putting an element in front of it. */
  lemma BeforePrepend<T>(z: T, t: seq<T>, x: T, y: T)
    requires Before(t, x, y)
    ensures Before([z] + t, x, y)
  {
    var a, b :| 0 <= a < b < |t| && t[a] == x && t[b] == y;
    assert ([z] + t)[a + 1] == x && ([z] + t)[b + 1] == y;
  }

  /** Putting `x` in front of `s` shifts every element of `s` one place on. */
  lemma ConsIndex<T>(x: T, s: seq<T>)
    ensures forall k :: 0 < k <= |s| ==> ([x] + s)[k] == s[k - 1]
  {
  }

  /** Filtering never invents an order that the input did not have. */
  lemma {:induction false} FilterReflectsOrder<T(!new)>(keep: T -> bool, s: seq<T>, x: T, y: T)
    requires Before(Filter(keep, s), x, y)
    ensures Before(s, x, y)
  {
    var f := Filter(keep, s);
    var a, b :| 0 <= a < b < |f| && f[a] == x && f[b] == y;
    var head := if keep(s[0]) then [s[0]] else [];
    var t := Filter(keep, s[1..]);
    assert f == head + t;
    if |head| == 1 && a == 0 {
      assert t[b - 1] == y;
      assert y in s[1..];
      var j :| 0 <= j < |s[1..]| && s[1..][j] == y;
      assert s[0] == x && s[j + 1] == y;
    } else {
      assert t[a - |head|] == x && t[b - |head|] == y;
      FilterReflectsOrder(keep, s[1..], x, y);
      var i, j :| 0 <= i < j < |s[1..]| && s[1..][i] == x && s[1..][j] == y;
      assert s[i + 1] == x && s[j + 1] == y;
    }
  }

  /** A duplicate-free sequence has as many elements as its set of elements. */
  lemma {:induction false} NoDupCardinality<T>(s: seq<T>)
    requires NoDup(s)
    ensures |set x | x in s| == |s|
  {
    if |s| > 0 {
      var rest := s[1..];
      assert NoDup(rest) by {
        forall i, j | 0 <= i < j < |rest|
          ensures rest[i] != rest[j]
        {
          assert rest[i] == s[i + 1] && rest[j] == s[j + 1];
        }
      }
      NoDupCardinality(rest);
      assert s[0] !in rest;
      assert (set x | x in s) == {s[0]} + (set x | x in rest) by {
        assert s == [s[0]] + rest;
      }
    }
  }
}
