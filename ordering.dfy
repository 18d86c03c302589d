/**
 * Query building blocks: rows of a table in key order, `Where`, and
 * `OrderBy` (an insertion sort by a total preorder).
 */
module Ordering {

  /** `le` relates any two values one way or the other. */
  ghost predicate Total<T(!new)>(le: (T, T) -> bool)
  {
    forall a, b :: le(a, b) || le(b, a)
  }

  /** Each element is ordered no later than the next one. */
  predicate Sorted<T>(s: seq<T>, le: (T, T) -> bool)
  {
    forall i :: 0 < i < |s| ==> le(s[i - 1], s[i])
  }

  function Insert<T(!new)>(x: T, s: seq<T>, le: (T, T) -> bool): (r: seq<T>)
    requires Total(le) && Sorted(s, le)
    ensures Sorted(r, le)
    ensures multiset(r) == multiset(s) + multiset{x}
    ensures s != [] ==> r[0] == x || r[0] == s[0]
  {
    if s == [] then [x]
    else if le(x, s[0]) then [x] + s
    else
      var t := Insert(x, s[1..], le);
      assert s == [s[0]] + s[1..];
      [s[0]] + t
  }

  /** `OrderBy`: the same elements, arranged in `le` order. */
  function SortBy<T(!new)>(s: seq<T>, le: (T, T) -> bool): (r: seq<T>)
    requires Total(le)
    ensures Sorted(r, le)
    ensures multiset(r) == multiset(s)
    ensures forall x :: x in r <==> x in s
  {
    if s == [] then []
    else
      assert s == [s[0]] + s[1..];
      var r := Insert(s[0], SortBy(s[1..], le), le);
      assert forall x :: x in r <==> x in multiset(r);
      r
  }

  /** `Where`: the elements satisfying `p`, in their original order. */
  function Filter<T(!new)>(s: seq<T>, p: T -> bool): (r: seq<T>)
    ensures forall x :: x in r <==> x in s && p(x)
    ensures forall x :: multiset(r)[x] == if p(x) then multiset(s)[x] else 0
  {
    if s == [] then []
    else
      assert s == [s[0]] + s[1..];
      var rest := Filter(s[1..], p);
      assert multiset(s) == multiset{s[0]} + multiset(s[1..]);
      (if p(s[0]) then [s[0]] else []) + rest
  }

  predicate IsMinimum(m: int, s: set<int>)
  {
    m in s && forall y | y in s :: m <= y
  }

  lemma PickElement(s: set<int>) returns (x: int)
    requires |s| > 0
    ensures x in s
  {
    if forall y :: y !in s { assert false; }
    x :| x in s;
  }

  lemma {:induction false} MinimumExists(s: set<int>)
    requires s != {}
    ensures exists m :: IsMinimum(m, s)
    decreases |s|
  {
    var x := PickElement(s);
    if s == {x} {
      assert IsMinimum(x, s);
    } else {
      var rest := s - {x};
      MinimumExists(rest);
      var m :| IsMinimum(m, rest);
      if x < m {
        forall y | y in s ensures x <= y {
          if y != x { assert y in rest; }
        }
        assert IsMinimum(x, s);
      } else {
        forall y | y in s ensures m <= y {
          if y != x { assert y in rest; }
        }
        assert IsMinimum(m, s);
      }
    }
  }

  /** The least element of a non-empty set. */
  function Minimum(s: set<int>): (m: int)
    requires s != {}
    ensures IsMinimum(m, s)
  {
    MinimumExists(s);
    var m :| IsMinimum(m, s);
    m
  }

  /** The keys of a table in ascending order: the order of a clustered primary key. */
  function SortedKeys(s: set<int>): (r: seq<int>)
    ensures forall x :: x in r <==> x in s
    ensures forall i, j :: 0 <= i < j < |r| ==> r[i] < r[j]
    ensures |r| == |s|
    decreases s
  {
    if s == {} then []
    else
      var m := Minimum(s);
      var rest := SortedKeys(s - {m});
      assert forall j :: 0 <= j < |rest| ==> m < rest[j] by {
        forall j | 0 <= j < |rest| ensures m < rest[j] {
          assert rest[j] in s - {m};
        }
      }
      var r := [m] + rest;
      assert |s - {m}| == |s| - 1;
      assert forall x :: x in r <==> x == m || x in rest;
      assert forall i, j :: 0 <= i < j < |r| ==> r[i] < r[j] by {
        forall i, j | 0 <= i < j < |r| ensures r[i] < r[j] {
          assert r[j] == rest[j - 1];
          if i > 0 { assert r[i] == rest[i - 1]; }
        }
      }
      r
  }

  /** The rows of a table keyed by id, in key order. */
  function Rows<T(==,!new)>(m: map<int, T>): (r: seq<T>)
    ensures |r| == |m|
    ensures forall x :: x in r <==> x in m.Values
  {
    var keys := SortedKeys(m.Keys);
    var r := seq(|keys|, i requires 0 <= i < |keys| => m[keys[i]]);
    assert forall x | x in m.Values :: x in r by {
      forall x | x in m.Values ensures x in r {
        var k :| k in m && m[k] == x;
        var i :| 0 <= i < |keys| && keys[i] == k;
        assert r[i] == x;
      }
    }
    r
  }
}
