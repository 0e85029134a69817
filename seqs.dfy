/**
 * Sequence operations that the blog's tables are built on: a table is a
 * sequence of rows, a query's WHERE clause is Filter, a fetch by a unique
 * field is IndexWhere, a bulk DELETE of equal rows is RemoveAll, and a table
 * with a default `-timestamp` ordering is kept NewestFirst by InsertNewest.
 */
module Seqs {

  datatype Option<T> = None | Some(value: T)

  /** Rows are listed newest first with respect to the timestamp `stamp`. */
  predicate NewestFirst<T>(s: seq<T>, stamp: T -> int) {
    forall i, j :: 0 <= i < j < |s| ==> stamp(s[i]) >= stamp(s[j])
  }

  /** No row occurs twice. */
  predicate Distinct<T(==)>(s: seq<T>) {
    forall i, j :: 0 <= i < j < |s| ==> s[i] != s[j]
  }

  /** No two rows share a value of `key` (a unique column). */
  predicate UniqueKeys<T, K(==)>(s: seq<T>, key: T -> K) {
    forall i, j :: 0 <= i < j < |s| ==> key(s[i]) != key(s[j])
  }

  /** The rows of `s` that satisfy `keep`, in their stored order. */
  function Filter<T>(s: seq<T>, keep: T -> bool): (r: seq<T>)
    ensures |r| <= |s|
    ensures forall x :: x in r ==> x in s && keep(x)
    ensures forall x :: x in s && keep(x) ==> x in r
  {
    if s == [] then []
    else if keep(s[0]) then [s[0]] + Filter(s[1..], keep)
    else Filter(s[1..], keep)
  }

  /** Filtering keeps a newest-first list newest first. */
  lemma {:induction false} FilterNewestFirst<T>(s: seq<T>, keep: T -> bool, stamp: T -> int)
    ensures NewestFirst(s, stamp) ==> NewestFirst(Filter(s, keep), stamp)
  {
    if s != [] && NewestFirst(s, stamp) {
      var tail := s[1..];
      assert NewestFirst(tail, stamp);
      FilterNewestFirst(tail, keep, stamp);
      if keep(s[0]) {
        var rest := Filter(tail, keep);
        forall x | x in rest ensures stamp(s[0]) >= stamp(x) {
          var k :| 0 <= k < |tail| && tail[k] == x;
          assert s[k + 1] == x;
        }
        ConsNewestFirst(s[0], rest, stamp);
      }
    }
  }

  /** Filtering keeps every kept row as often as it is stored and drops every other row. */
  lemma {:induction false} FilterCount<T>(s: seq<T>, keep: T -> bool)
    ensures forall x :: multiset(Filter(s, keep))[x] == if keep(x) then multiset(s)[x] else 0
  {
    if s != [] {
      assert s == [s[0]] + s[1..];
      FilterCount(s[1..], keep);
    }
  }

  /** Filtering keeps a duplicate-free list duplicate-free. */
  lemma {:induction false} FilterDistinct<T>(s: seq<T>, keep: T -> bool)
    ensures Distinct(s) ==> Distinct(Filter(s, keep))
  {
    if s != [] && Distinct(s) {
      var tail := s[1..];
      assert Distinct(tail);
      FilterDistinct(tail, keep);
      if keep(s[0]) {
        assert s[0] !in tail by {
          forall k | 0 <= k < |tail| ensures tail[k] != s[0] {
            assert tail[k] == s[k + 1];
          }
        }
        ConsDistinct(s[0], Filter(tail, keep));
      }
    }
  }

  /** Putting a row that is at least as new as every row of `s` in front of `s`. */
  lemma ConsNewestFirst<T>(x: T, s: seq<T>, stamp: T -> int)
    requires NewestFirst(s, stamp)
    requires forall y :: y in s ==> stamp(x) >= stamp(y)
    ensures NewestFirst([x] + s, stamp)
  {
    var r := [x] + s;
    forall i, j | 0 <= i < j < |r| ensures stamp(r[i]) >= stamp(r[j]) {
      assert r[j] == s[j - 1];
      if i > 0 {
        assert r[i] == s[i - 1];
      }
    }
  }

  /** Joining two newest-first lists where the first is never older than the second. */
  lemma AppendNewestFirst<T>(a: seq<T>, b: seq<T>, stamp: T -> int)
    requires NewestFirst(a, stamp) && NewestFirst(b, stamp)
    requires forall x, y :: x in a && y in b ==> stamp(x) >= stamp(y)
    ensures NewestFirst(a + b, stamp)
  {
    var r := a + b;
    forall i, j | 0 <= i < j < |r| ensures stamp(r[i]) >= stamp(r[j]) {
      if j >= |a| {
        assert r[j] == b[j - |a|];
        if i >= |a| {
          assert r[i] == b[i - |a|];
        } else {
          assert r[i] == a[i] && a[i] in a && b[j - |a|] in b;
        }
      }
    }
  }

  /** `n` copies of `x`: one result row per matching joined row. */
  function Repeat<T>(x: T, n: nat): (r: seq<T>)
    ensures |r| == n
    ensures forall y :: y in r ==> y == x
    ensures n > 0 ==> x in r
    ensures multiset(r) == multiset{}[x := n]
  {
    if n == 0 then []
    else
      var rest := Repeat(x, n - 1);
      assert multiset([x] + rest) == multiset{x} + multiset(rest);
      [x] + rest
  }

  /** `s` without any occurrence of `x`, other rows kept in their stored order. */
  function RemoveAll<T(==)>(s: seq<T>, x: T): (r: seq<T>)
    ensures x !in r
    ensures multiset(r) == multiset(s)[x := 0]
  {
    if s == [] then []
    else
      assert s == [s[0]] + s[1..];
      if s[0] == x then RemoveAll(s[1..], x) else [s[0]] + RemoveAll(s[1..], x)
  }

  /** Removing a row that is not there changes nothing. */
  lemma {:induction false} RemoveAllAbsent<T>(s: seq<T>, x: T)
    requires x !in s
    ensures RemoveAll(s, x) == s
  {
    if s != [] {
      assert x !in s[1..];
      RemoveAllAbsent(s[1..], x);
    }
  }

  /** Removal distributes over concatenation. */
  lemma {:induction false} RemoveAllAppend<T>(s: seq<T>, t: seq<T>, x: T)
    ensures RemoveAll(s + t, x) == RemoveAll(s, x) + RemoveAll(t, x)
  {
    if s == [] {
      assert s + t == t;
    } else {
      assert (s + t)[1..] == s[1..] + t;
      RemoveAllAppend(s[1..], t, x);
    }
  }

  /** Removal keeps a duplicate-free list duplicate-free. */
  lemma {:induction false} RemoveAllDistinct<T>(s: seq<T>, x: T)
    requires Distinct(s)
    ensures Distinct(RemoveAll(s, x))
  {
    if s != [] {
      var tail := s[1..];
      assert Distinct(tail);
      RemoveAllDistinct(tail, x);
      if s[0] != x {
        assert s[0] !in tail;
        var rest := RemoveAll(tail, x);
        assert s[0] !in rest by {
          assert multiset(rest)[s[0]] <= multiset(tail)[s[0]];
        }
        ConsDistinct(s[0], rest);
      }
    }
  }

  lemma ConsDistinct<T>(x: T, s: seq<T>)
    requires Distinct(s) && x !in s
    ensures Distinct([x] + s)
  {
    var r := [x] + s;
    forall i, j | 0 <= i < j < |r| ensures r[i] != r[j] {
      assert r[j] == s[j - 1];
      if i > 0 {
        assert r[i] == s[i - 1];
      }
    }
  }

  /** A list with a unique column has no duplicate rows. */
  lemma UniqueKeysDistinct<T, K>(s: seq<T>, key: T -> K)
    requires UniqueKeys(s, key)
    ensures Distinct(s)
  {
    forall i, j | 0 <= i < j < |s| ensures s[i] != s[j] {
      assert key(s[i]) != key(s[j]);
    }
  }

  /** In a duplicate-free list every row occurs at most once. */
  lemma {:induction false} DistinctCount<T>(s: seq<T>, x: T)
    requires Distinct(s)
    ensures multiset(s)[x] == if x in s then 1 else 0
  {
    if s != [] {
      var tail := s[1..];
      assert s == [s[0]] + tail;
      assert Distinct(tail);
      DistinctCount(tail, x);
      if s[0] == x {
        assert x !in tail by {
          forall k | 0 <= k < |tail| ensures tail[k] != x {
            assert tail[k] == s[k + 1];
          }
        }
      }
    }
  }

  /** The first position whose row satisfies `p`, if there is one. */
  function IndexWhere<T>(s: seq<T>, p: T -> bool): (r: Option<nat>)
    ensures r.Some? ==> r.value < |s| && p(s[r.value])
    ensures r.Some? ==> forall i :: 0 <= i < r.value ==> !p(s[i])
    ensures r.None? ==> forall x :: x in s ==> !p(x)
  {
    if s == [] then None
    else if p(s[0]) then Some(0)
    else
      match IndexWhere(s[1..], p)
      case None => None
      case Some(i) => Some(i + 1)
  }

  /**
   * `s` with `x` added where the newest-first ordering puts it: after every
   * row strictly newer than `x`, in front of the first row that is not.
   */
  function InsertNewest<T>(s: seq<T>, x: T, stamp: T -> int): (r: seq<T>)
    ensures |r| == |s| + 1
    ensures multiset(r) == multiset(s) + multiset{x}
    ensures x in r && forall y :: y in s ==> y in r
    ensures forall y :: y in r ==> y == x || y in s
    ensures NewestFirst(s, stamp) ==> NewestFirst(r, stamp)
  {
    if s == [] || stamp(s[0]) <= stamp(x) then
      assert NewestFirst(s, stamp) ==> NewestFirst([x] + s, stamp) by {
        if NewestFirst(s, stamp) {
          forall y | y in s ensures stamp(x) >= stamp(y) {
            var j :| 0 <= j < |s| && s[j] == y;
            assert stamp(s[0]) >= stamp(s[j]);
          }
          ConsNewestFirst(x, s, stamp);
        }
      }
      [x] + s
    else
      var rest := InsertNewest(s[1..], x, stamp);
      assert s == [s[0]] + s[1..];
      assert NewestFirst(s, stamp) ==> NewestFirst([s[0]] + rest, stamp) by {
        if NewestFirst(s, stamp) {
          assert NewestFirst(s[1..], stamp);
          forall y | y in rest ensures stamp(s[0]) >= stamp(y) {
            if y != x {
              var j :| 0 <= j < |s[1..]| && s[1..][j] == y;
              assert s[j + 1] == y;
            }
          }
          ConsNewestFirst(s[0], rest, stamp);
        }
      }
      [s[0]] + rest
  }

  /** Putting a row whose key no row of `s` has in front of `s` keeps the key unique. */
  lemma ConsUnique<T, K>(x: T, s: seq<T>, key: T -> K)
    requires UniqueKeys(s, key)
    requires forall y :: y in s ==> key(y) != key(x)
    ensures UniqueKeys([x] + s, key)
  {
    var r := [x] + s;
    forall i, j | 0 <= i < j < |r| ensures key(r[i]) != key(r[j]) {
      assert r[j] == s[j - 1];
      if i > 0 {
        assert r[i] == s[i - 1];
      }
    }
  }

  /** Adding a row whose key is new keeps a unique column unique. */
  lemma {:induction false} InsertNewestUnique<T, K>(s: seq<T>, x: T, stamp: T -> int, key: T -> K)
    requires UniqueKeys(s, key)
    requires forall y :: y in s ==> key(y) != key(x)
    ensures UniqueKeys(InsertNewest(s, x, stamp), key)
  {
    if s == [] || stamp(s[0]) <= stamp(x) {
      ConsUnique(x, s, key);
    } else {
      var tail := s[1..];
      assert UniqueKeys(tail, key) by {
        forall i, j | 0 <= i < j < |tail| ensures key(tail[i]) != key(tail[j]) {
          assert tail[i] == s[i + 1] && tail[j] == s[j + 1];
        }
      }
      InsertNewestUnique(tail, x, stamp, key);
      var rest := InsertNewest(tail, x, stamp);
      forall y | y in rest ensures key(y) != key(s[0]) {
        if y == x {
          assert s[0] in s;
        } else {
          var j :| 0 <= j < |tail| && tail[j] == y;
          assert s[j + 1] == y;
        }
      }
      ConsUnique(s[0], rest, key);
    }
  }

  /** Replacing a row by one with the same stamp and key keeps ordering and uniqueness. */
  lemma ReplaceKeeps<T, K>(s: seq<T>, k: nat, y: T, stamp: T -> int, key: T -> K)
    requires k < |s| && stamp(y) == stamp(s[k]) && key(y) == key(s[k])
    ensures NewestFirst(s, stamp) ==> NewestFirst(s[k := y], stamp)
    ensures UniqueKeys(s, key) ==> UniqueKeys(s[k := y], key)
  {
    var r := s[k := y];
    assert forall i :: 0 <= i < |r| ==> stamp(r[i]) == stamp(s[i]) && key(r[i]) == key(s[i]);
  }
}
