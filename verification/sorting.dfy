/** The orderings the repositories' queries ask of the store: ids
    ascending (`ORDER BY id`) and timestamps ascending or descending
    (`ORDER BY scheduled_at [DESC]`), the latter with ties in no promised
    order. */
module Sorting {
  import opened DateTimes

  // ---------------------------------------------------------------------
  // ORDER BY id
  // ---------------------------------------------------------------------

  lemma NonEmptyHasMember(ids: set<int>)
    requires ids != {}
    ensures exists x :: x in ids
  {
    if forall x :: x !in ids {
      assert false;
    }
  }

  lemma {:induction false} MinimumExists(ids: set<int>)
    requires ids != {}
    ensures exists m :: m in ids && forall k :: k in ids ==> m <= k
    decreases |ids|
  {
    NonEmptyHasMember(ids);
    var x :| x in ids;
    var rest := ids - {x};
    assert forall k :: k in ids ==> k == x || k in rest;
    if rest == {} {
      assert x in ids && forall k :: k in ids ==> x <= k;
    } else {
      MinimumExists(rest);
      var m :| m in rest && forall k :: k in rest ==> m <= k;
      var least := if x < m then x else m;
      assert least in ids && forall k :: k in ids ==> least <= k;
    }
  }

  /** The least element of a non-empty set of ids. */
  function Minimum(ids: set<int>): (m: int)
    requires ids != {}
    ensures m in ids && forall k :: k in ids ==> m <= k
  {
    MinimumExists(ids);
    var m :| m in ids && forall k :: k in ids ==> m <= k;
    m
  }

  predicate StrictlyIncreasing(s: seq<int>) {
    forall i, j :: 0 <= i < j < |s| ==> s[i] < s[j]
  }

  /** The ids of a table in ascending order, each once. */
  function SortedIds(ids: set<int>): (r: seq<int>)
    ensures StrictlyIncreasing(r)
    ensures forall k :: k in r <==> k in ids
    ensures |r| == |ids|
    decreases |ids|
  {
    if ids == {} then []
    else
      var m := Minimum(ids);
      var rest := SortedIds(ids - {m});
      assert forall k :: k in rest ==> m < k;
      [m] + rest
  }

  /** Putting the head of an increasing sequence before increasing ids
      drawn from its tail keeps them increasing. */
  lemma IncreasingCons(s: seq<int>, rest: seq<int>)
    requires s != []
    requires forall k :: k in rest ==> k in s[1..]
    requires StrictlyIncreasing(s[1..]) ==> StrictlyIncreasing(rest)
    ensures StrictlyIncreasing(s) ==> StrictlyIncreasing([s[0]] + rest)
  {
    if StrictlyIncreasing(s) {
      assert StrictlyIncreasing(s[1..]) by {
        forall i, j | 0 <= i < j < |s[1..]| ensures s[1..][i] < s[1..][j] {
          assert s[1..][i] == s[i + 1] && s[1..][j] == s[j + 1];
        }
      }
      var r := [s[0]] + rest;
      forall i, j | 0 <= i < j < |r| ensures r[i] < r[j] {
        if i == 0 {
          assert r[j] == rest[j - 1];
          assert r[j] in s[1..];
          var k :| 0 <= k < |s[1..]| && s[1..][k] == r[j];
          assert s[k + 1] == r[j];
        } else {
          assert r[i] == rest[i - 1] && r[j] == rest[j - 1];
        }
      }
    }
  }

  /** The ids of `s` that satisfy `keep`, in their original order: the
      rows a `WHERE` clause lets through. */
  function FilterIds(s: seq<int>, keep: int -> bool): (r: seq<int>)
    ensures forall k :: k in r <==> k in s && keep(k)
    ensures StrictlyIncreasing(s) ==> StrictlyIncreasing(r)
    ensures |r| <= |s|
    ensures (forall k :: k in s ==> keep(k)) ==> r == s
  {
    if s == [] then []
    else
      var rest := FilterIds(s[1..], keep);
      if keep(s[0]) then
        IncreasingCons(s, rest);
        [s[0]] + rest
      else
        assert StrictlyIncreasing(s) ==> StrictlyIncreasing(s[1..]);
        assert s[0] in s;
        rest
  }

  // ---------------------------------------------------------------------
  // ORDER BY <timestamp>
  // ---------------------------------------------------------------------

  /** Non-decreasing in `key`. */
  ghost predicate Ascending<T>(s: seq<T>, key: T -> DateTime) {
    forall i, j :: 0 <= i < j < |s| ==> NotAfter(key(s[i]), key(s[j]))
  }

  /** Non-increasing in `key`. */
  ghost predicate Descending<T>(s: seq<T>, key: T -> DateTime) {
    forall i, j :: 0 <= i < j < |s| ==> NotAfter(key(s[j]), key(s[i]))
  }

  lemma LeastFirst<T>(x: T, s: seq<T>, key: T -> DateTime)
    requires Ascending(s, key) && s != [] && NotAfter(key(x), key(s[0]))
    ensures Ascending([x] + s, key)
  {
    forall j | 0 <= j < |s| ensures NotAfter(key(x), key(s[j])) {
      NotAfterIsTotalOrder(key(x), key(s[0]), key(s[j]));
    }
  }

  lemma HeadFirst<T>(h: T, rest: seq<T>, x: T, s: seq<T>, key: T -> DateTime)
    requires Ascending(rest, key) && Ascending([h] + s, key)
    requires multiset(rest) == multiset(s) + multiset{x}
    requires NotAfter(key(h), key(x))
    ensures Ascending([h] + rest, key)
  {
    forall j | 0 <= j < |rest| ensures NotAfter(key(h), key(rest[j])) {
      var y := rest[j];
      assert y in multiset(rest);
      if y != x {
        assert y in multiset(s);
        var k :| 0 <= k < |s| && s[k] == y;
        assert ([h] + s)[0] == h && ([h] + s)[k + 1] == y;
      }
    }
    var r := [h] + rest;
    forall i, j | 0 <= i < j < |r| ensures NotAfter(key(r[i]), key(r[j])) {
      if i > 0 {
        assert r[i] == rest[i - 1] && r[j] == rest[j - 1];
      }
    }
  }

  function Insert<T(==)>(x: T, s: seq<T>, key: T -> DateTime): (r: seq<T>)
    requires Ascending(s, key)
    ensures Ascending(r, key)
    ensures multiset(r) == multiset(s) + multiset{x}
  {
    if s == [] then [x]
    else if NotAfter(key(x), key(s[0])) then
      LeastFirst(x, s, key);
      [x] + s
    else
      var rest := Insert(x, s[1..], key);
      assert s == [s[0]] + s[1..];
      NotAfterIsTotalOrder(key(x), key(s[0]), key(x));
      HeadFirst(s[0], rest, x, s[1..], key);
      [s[0]] + rest
  }

  /** A stable insertion sort by `key`, ascending. */
  function SortAscending<T(==)>(s: seq<T>, key: T -> DateTime): (r: seq<T>)
    ensures Ascending(r, key)
    ensures multiset(r) == multiset(s)
  {
    if s == [] then []
    else
      assert s == [s[0]] + s[1..];
      Insert(s[0], SortAscending(s[1..], key), key)
  }

  function Reverse<T>(s: seq<T>): (r: seq<T>)
    ensures |r| == |s|
    ensures forall i :: 0 <= i < |s| ==> r[i] == s[|s| - 1 - i]
  {
    if s == [] then [] else Reverse(s[1..]) + [s[0]]
  }

  lemma {:induction false} ReverseSameElements<T>(s: seq<T>)
    ensures multiset(Reverse(s)) == multiset(s)
  {
    if s != [] {
      ReverseSameElements(s[1..]);
      assert s == [s[0]] + s[1..];
    }
  }

  lemma ReverseAscending<T>(s: seq<T>, key: T -> DateTime)
    requires Ascending(s, key)
    ensures Descending(Reverse(s), key)
  {
    var r := Reverse(s);
    forall i, j | 0 <= i < j < |r| ensures NotAfter(key(r[j]), key(r[i])) {
      assert r[j] == s[|s| - 1 - j] && r[i] == s[|s| - 1 - i];
    }
  }

  /** Sorted by `key`, descending. */
  function SortDescending<T(==)>(s: seq<T>, key: T -> DateTime): (r: seq<T>)
    ensures Descending(r, key)
    ensures multiset(r) == multiset(s)
  {
    var up := SortAscending(s, key);
    ReverseSameElements(up);
    ReverseAscending(up, key);
    Reverse(up)
  }

  /** Sequences with equal multisets hold the same elements. */
  lemma SameElements<T>(s: seq<T>, t: seq<T>)
    requires multiset(s) == multiset(t)
    ensures forall x :: x in s <==> x in t
  {
    forall x ensures x in s <==> x in t {
      assert x in s <==> x in multiset(s);
      assert x in t <==> x in multiset(t);
    }
  }

  // ---------------------------------------------------------------------
  // Each row once
  // ---------------------------------------------------------------------

  predicate Distinct<T(==)>(s: seq<T>) {
    forall i, j :: 0 <= i < j < |s| ==> s[i] != s[j]
  }

  lemma {:induction false} DistinctCountsOnce<T>(s: seq<T>, x: T)
    requires Distinct(s)
    ensures multiset(s)[x] <= 1
  {
    if s != [] {
      assert s == [s[0]] + s[1..];
      assert Distinct(s[1..]) by {
        forall i, j | 0 <= i < j < |s[1..]| ensures s[1..][i] != s[1..][j] {
          assert s[1..][i] == s[i + 1] && s[1..][j] == s[j + 1];
        }
      }
      DistinctCountsOnce(s[1..], x);
      assert s[0] !in s[1..];
    }
  }

  lemma RepeatCountsTwice<T>(s: seq<T>, i: int, j: int)
    requires 0 <= i < j < |s| && s[i] == s[j]
    ensures multiset(s)[s[i]] >= 2
  {
    assert s == s[..j] + [s[j]] + s[j + 1..];
    assert s[i] == s[..j][i];
    assert multiset(s[..j])[s[i]] >= 1;
  }

  /** A permutation of a sequence without repeats has none either. */
  lemma PermutationKeepsDistinct<T>(s: seq<T>, t: seq<T>)
    requires Distinct(s) && multiset(s) == multiset(t)
    ensures Distinct(t)
  {
    forall i, j | 0 <= i < j < |t| ensures t[i] != t[j] {
      if t[i] == t[j] {
        RepeatCountsTwice(t, i, j);
        DistinctCountsOnce(s, t[i]);
        assert false;
      }
    }
  }
}
