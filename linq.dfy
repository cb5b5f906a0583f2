/**
 * The LINQ operators the repositories and services use, over the sequence in which
 * a table stores its rows.
 */
module Linq {
  import opened Wrappers
  import opened Exceptions

  /** Enumerable.FirstOrDefault: the first element satisfying `p`, or None. */
  function FirstOrDefault<T(!new)>(s: seq<T>, p: T -> bool): (r: Option<T>)
    ensures r.Some? ==> r.value in s && p(r.value)
    ensures r.None? <==> forall x :: x in s ==> !p(x)
    ensures r.Some? ==> exists i :: 0 <= i < |s| && s[i] == r.value && forall j :: 0 <= j < i ==> !p(s[j])
  {
    if s == [] then None
    else if p(s[0]) then Some(s[0])
    else
      var r := FirstOrDefault(s[1..], p);
      assert forall x :: x in s ==> x == s[0] || x in s[1..];
      assert r.Some? ==> exists i :: 0 <= i < |s[1..]| && s[1..][i] == r.value && forall j :: 0 <= j < i ==> !p(s[1..][j]);
      r
  }

  /** Enumerable.Where: the elements satisfying `p`, in order. */
  function Where<T(!new)>(s: seq<T>, p: T -> bool): (r: seq<T>)
    ensures forall x :: x in r <==> x in s && p(x)
    ensures (forall x :: x in s ==> !p(x)) ==> r == []
    ensures multiset(r) <= multiset(s)
    ensures forall x :: multiset(r)[x] == if p(x) then multiset(s)[x] else 0
    ensures |r| <= |s|
  {
    if s == [] then []
    else
      assert s == [s[0]] + s[1..];
      (if p(s[0]) then [s[0]] else []) + Where(s[1..], p)
  }

  /** Enumerable.Select. */
  function Select<T(!new), U(!new)>(s: seq<T>, f: T -> U): (r: seq<U>)
    ensures |r| == |s| && forall i :: 0 <= i < |s| ==> r[i] == f(s[i])
    ensures forall x :: x in s ==> f(x) in r
    ensures forall y :: y in r ==> exists x :: x in s && f(x) == y
  {
    var r := seq(|s|, i requires 0 <= i < |s| => f(s[i]));
    assert forall x :: x in s ==> f(x) in r by {
      forall x | x in s ensures f(x) in r {
        var i :| 0 <= i < |s| && s[i] == x;
        assert r[i] == f(x);
      }
    }
    r
  }

  /** Enumerable.Take: the first `count` elements; none when `count` is zero or negative. */
  function Take<T(!new)>(s: seq<T>, count: int): (r: seq<T>)
    ensures |r| == if count <= 0 then 0 else if count < |s| then count else |s|
    ensures r == s[..|r|]
  {
    if count <= 0 then [] else if count < |s| then s[..count] else s
  }

  /** Enumerable.SingleOrDefault: the only element satisfying `p`, None if there is none, and an
      InvalidOperationException when more than one does. */
  function SingleOrDefault<T(!new)>(s: seq<T>, p: T -> bool): (r: Result<Option<T>, Exception>)
    ensures r == Ok(None) <==> forall x :: x in s ==> !p(x)
    ensures r.Ok? && r.value.Some? ==> r.value.value in s && p(r.value.value)
    ensures r.Err? <==> |Where(s, p)| > 1
  {
    var matches := Where(s, p);
    assert |matches| > 0 ==> matches[0] in matches;
    if |matches| == 0 then Ok(None)
    else if |matches| == 1 then Ok(Some(matches[0]))
    else Err(InvalidOperation("Sequence contains more than one matching element"))
  }

  /** When no two positions of `s` satisfy `p`, Where keeps at most one element,
      so SingleOrDefault cannot throw. */
  lemma {:induction false} WhereOfKeyUnique<T(!new)>(s: seq<T>, p: T -> bool)
    requires forall i, j :: 0 <= i < |s| && 0 <= j < |s| && p(s[i]) && p(s[j]) ==> i == j
    ensures |Where(s, p)| <= 1
  {
    if s != [] {
      var tail := s[1..];
      assert forall i, j :: 0 <= i < |tail| && 0 <= j < |tail| && p(tail[i]) && p(tail[j]) ==> i == j by {
        forall i, j | 0 <= i < |tail| && 0 <= j < |tail| && p(tail[i]) && p(tail[j]) ensures i == j {
          assert tail[i] == s[i + 1] && tail[j] == s[j + 1];
        }
      }
      WhereOfKeyUnique(tail, p);
      if p(s[0]) {
        forall x | x in tail ensures !p(x) {
          var k :| 0 <= k < |tail| && tail[k] == x;
          assert s[k + 1] == x;
        }
        assert Where(tail, p) == [];
      }
    }
  }

  /** `s` is ordered by `key`, largest first. */
  predicate SortedDesc<T(!new)>(s: seq<T>, key: T -> int) {
    forall i, j :: 0 <= i < j < |s| ==> key(s[i]) >= key(s[j])
  }

  /** Inserts `x` into the descending `s` before the first element whose key is not larger,
      so that among equal keys the earlier-inserted element comes first. */
  function InsertDesc<T(!new)>(x: T, s: seq<T>, key: T -> int): (r: seq<T>)
    requires SortedDesc(s, key)
    ensures SortedDesc(r, key)
    ensures multiset(r) == multiset(s) + multiset{x}
    ensures |r| == |s| + 1
  {
    if s == [] || key(x) >= key(s[0]) then [x] + s
    else
      var rest := InsertDesc(x, s[1..], key);
      assert s == [s[0]] + s[1..];
      TailBelowHead(s, key);
      BoundedByMultiset(rest, s[1..] + [x], key, key(s[0]));
      ConsSortedDesc(s[0], rest, key);
      [s[0]] + rest
  }

  /** In a descending sequence no later key exceeds the first. */
  lemma TailBelowHead<T(!new)>(s: seq<T>, key: T -> int)
    requires SortedDesc(s, key) && s != []
    ensures forall y :: y in s[1..] ==> key(y) <= key(s[0])
  {
    forall y | y in s[1..] ensures key(y) <= key(s[0]) {
      var k :| 0 <= k < |s[1..]| && s[1..][k] == y;
      assert s[k + 1] == y;
    }
  }

  /** A bound on the keys of `t` holds for any `u` with the same elements. */
  lemma BoundedByMultiset<T(!new)>(u: seq<T>, t: seq<T>, key: T -> int, b: int)
    requires multiset(u) == multiset(t)
    requires forall y :: y in t ==> key(y) <= b
    ensures forall y :: y in u ==> key(y) <= b
  {
    forall y | y in u ensures key(y) <= b {
      assert y in multiset(u);
      assert y in multiset(t);
    }
  }

  /** Putting an element no smaller than every other in front keeps a sequence descending. */
  lemma ConsSortedDesc<T(!new)>(h: T, rest: seq<T>, key: T -> int)
    requires SortedDesc(rest, key)
    requires forall y :: y in rest ==> key(y) <= key(h)
    ensures SortedDesc([h] + rest, key)
  {
    var r := [h] + rest;
    forall i, j | 0 <= i < j < |r| ensures key(r[i]) >= key(r[j]) {
      assert r[j] == rest[j - 1];
      if i > 0 { assert r[i] == rest[i - 1]; }
    }
  }

  /** Enumerable.OrderByDescending, a stable sort (an insertion sort). */
  function OrderByDescending<T(!new)>(s: seq<T>, key: T -> int): (r: seq<T>)
    ensures SortedDesc(r, key)
    ensures multiset(r) == multiset(s)
    ensures |r| == |s|
  {
    if s == [] then []
    else
      assert s == [s[0]] + s[1..];
      InsertDesc(s[0], OrderByDescending(s[1..], key), key)
  }

  /** Sorting a sequence that is already descending does not reorder it: the stable sort
      keeps elements with equal keys in their given order. */
  lemma {:induction false} OrderByDescendingOfSorted<T(!new)>(s: seq<T>, key: T -> int)
    requires SortedDesc(s, key)
    ensures OrderByDescending(s, key) == s
  {
    if s != [] {
      assert SortedDesc(s[1..], key);
      OrderByDescendingOfSorted(s[1..], key);
      assert [s[0]] + s[1..] == s;
    }
  }

  /** A prefix of a descending sequence is descending and part of it. */
  lemma TakeOfSorted<T(!new)>(s: seq<T>, key: T -> int, count: int)
    requires SortedDesc(s, key)
    ensures SortedDesc(Take(s, count), key)
    ensures multiset(Take(s, count)) <= multiset(s)
  {
    var t := Take(s, count);
    assert s == t + s[|t|..];
  }

  /** Taking a prefix of a descending sequence keeps the largest keys: every element
      left out has a key no larger than any element kept. */
  lemma TakeKeepsLargest<T(!new)>(s: seq<T>, key: T -> int, count: int)
    requires SortedDesc(s, key)
    ensures forall x, y :: x in Take(s, count) && y in s && y !in Take(s, count) ==> key(y) <= key(x)
  {
    var t := Take(s, count);
    forall x, y | x in t && y in s && y !in t ensures key(y) <= key(x) {
      var i :| 0 <= i < |t| && t[i] == x;
      var j :| 0 <= j < |s| && s[j] == y;
      assert forall k :: 0 <= k < |t| ==> s[k] != y by {
        forall k | 0 <= k < |t| ensures s[k] != y { assert t[k] == s[k] && t[k] in t; }
      }
      assert s[i] == x;
    }
  }
}
