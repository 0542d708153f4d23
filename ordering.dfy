/**
 * Sequence queries the store performs for the services: filtering rows in
 * table order (`findMany` with a `where`), finding the first row of a scan
 * that satisfies a test, and ordering rows by a timestamp, latest first
 * (`orderBy: { ...: 'desc' }`).
 */
module Ordering {
  import opened Base

  /** The elements of `s` satisfying `p`, in their order in `s`. */
  function Filter<T>(s: seq<T>, p: T -> bool): (r: seq<T>)
    ensures |r| <= |s|
    decreases |s|
  {
    if s == [] then [] else (if p(s[0]) then [s[0]] else []) + Filter(s[1..], p)
  }

  /** The filter keeps exactly the elements that pass: each kept one is in `s` and passes, each passing one is kept. */
  lemma {:induction false} FilterMembers<T>(s: seq<T>, p: T -> bool)
    ensures forall i :: 0 <= i < |Filter(s, p)| ==> Filter(s, p)[i] in s && p(Filter(s, p)[i])
    ensures forall i :: 0 <= i < |s| && p(s[i]) ==> s[i] in Filter(s, p)
    decreases |s|
  {
    if s != [] {
      FilterMembers(s[1..], p);
      var tail := Filter(s[1..], p);
      var f := Filter(s, p);
      forall i | 0 <= i < |f| ensures f[i] in s && p(f[i]) {
        if p(s[0]) && i == 0 {
          assert f[0] == s[0];
        } else {
          var k := if p(s[0]) then i - 1 else i;
          assert f[i] == tail[k];
          assert tail[k] in s[1..];
        }
      }
      forall i | 0 <= i < |s| && p(s[i]) ensures s[i] in f {
        if i > 0 {
          assert s[i] == s[1..][i - 1];
          assert s[i] in tail;
        }
      }
    }
  }

  /** The position of the first element of `s` satisfying `q`, if any. */
  function FirstIndex<T>(s: seq<T>, q: T -> bool): (r: Option<nat>)
    ensures r.None? ==> forall i :: 0 <= i < |s| ==> !q(s[i])
    ensures r.Some? ==> r.value < |s| && q(s[r.value]) && forall j :: 0 <= j < r.value ==> !q(s[j])
    decreases |s|
  {
    if s == [] then None
    else if q(s[0]) then Some(0)
    else match FirstIndex(s[1..], q)
      case None => None
      case Some(k) => Some(k + 1)
  }

  /** The conjunction of two tests. */
  function Both<T>(p: T -> bool, q: T -> bool): T -> bool
  {
    x => p(x) && q(x)
  }

  /**
   * Scanning the filtered rows for the first one satisfying `q` finds the
   * same row as scanning the whole table for the first row that passes the
   * filter and `q`.
   */
  lemma {:induction false} FilterThenFirst<T>(s: seq<T>, p: T -> bool, q: T -> bool)
    ensures var a := FirstIndex(Filter(s, p), q);
      var b := FirstIndex(s, Both(p, q));
      a.Some? == b.Some? && (a.Some? ==> a.value < |Filter(s, p)| && b.value < |s| && Filter(s, p)[a.value] == s[b.value])
    decreases |s|
  {
    if s != [] {
      FilterThenFirst(s[1..], p, q);
      if p(s[0]) {
        FilterThenFirstKept(s, p, q);
      } else {
        FilterThenFirstSkipped(s, p, q);
      }
    }
  }

  /** The step of `FilterThenFirst` when the head fails the filter. */
  lemma FilterThenFirstSkipped<T>(s: seq<T>, p: T -> bool, q: T -> bool)
    requires s != [] && !p(s[0])
    requires var a := FirstIndex(Filter(s[1..], p), q);
      var b := FirstIndex(s[1..], Both(p, q));
      a.Some? == b.Some? && (a.Some? ==> a.value < |Filter(s[1..], p)| && b.value < |s[1..]| && Filter(s[1..], p)[a.value] == s[1..][b.value])
    ensures var a := FirstIndex(Filter(s, p), q);
      var b := FirstIndex(s, Both(p, q));
      a.Some? == b.Some? && (a.Some? ==> a.value < |Filter(s, p)| && b.value < |s| && Filter(s, p)[a.value] == s[b.value])
  {
    assert Filter(s, p) == Filter(s[1..], p);
    assert !Both(p, q)(s[0]);
    var b' := FirstIndex(s[1..], Both(p, q));
    assert FirstIndex(s, Both(p, q)) == if b'.Some? then Some(b'.value + 1) else None;
  }

  /** The step of `FilterThenFirst` when the head passes the filter. */
  lemma FilterThenFirstKept<T>(s: seq<T>, p: T -> bool, q: T -> bool)
    requires s != [] && p(s[0])
    requires var a := FirstIndex(Filter(s[1..], p), q);
      var b := FirstIndex(s[1..], Both(p, q));
      a.Some? == b.Some? && (a.Some? ==> a.value < |Filter(s[1..], p)| && b.value < |s[1..]| && Filter(s[1..], p)[a.value] == s[1..][b.value])
    ensures var a := FirstIndex(Filter(s, p), q);
      var b := FirstIndex(s, Both(p, q));
      a.Some? == b.Some? && (a.Some? ==> a.value < |Filter(s, p)| && b.value < |s| && Filter(s, p)[a.value] == s[b.value])
  {
    var f := Filter(s, p);
    var tail := Filter(s[1..], p);
    assert f == [s[0]] + tail;
    assert f[0] == s[0] && f[1..] == tail;
    if q(s[0]) {
      assert Both(p, q)(s[0]);
    } else {
      assert !Both(p, q)(s[0]);
      var a' := FirstIndex(tail, q);
      var b' := FirstIndex(s[1..], Both(p, q));
      assert FirstIndex(f, q) == if a'.Some? then Some(a'.value + 1) else None;
      assert FirstIndex(s, Both(p, q)) == if b'.Some? then Some(b'.value + 1) else None;
      if a'.Some? {
        assert f[a'.value + 1] == tail[a'.value];
      }
    }
  }

  predicate SortedDesc<T>(s: seq<T>, key: T -> int)
  {
    forall i, j :: 0 <= i < j < |s| ==> key(s[j]) <= key(s[i])
  }

  /** Insert `x` in front of the first element whose key does not exceed its own. */
  function InsertDesc<T>(x: T, s: seq<T>, key: T -> int): (r: seq<T>)
    ensures multiset(r) == multiset(s) + multiset{x}
    decreases |s|
  {
    if s == [] then [x]
    else if key(x) >= key(s[0]) then [x] + s
    else
      assert s == [s[0]] + s[1..];
      [s[0]] + InsertDesc(x, s[1..], key)
  }

  /** The insertion adds `x` and keeps every element, adding no other. */
  lemma InsertDescElements<T>(x: T, s: seq<T>, key: T -> int)
    ensures var r := InsertDesc(x, s, key);
      && |r| == |s| + 1 && x in r
      && (forall y :: y in s ==> y in r)
      && (forall i :: 0 <= i < |r| ==> r[i] == x || r[i] in s)
  {
    var r := InsertDesc(x, s, key);
    assert |multiset(r)| == |multiset(s)| + 1;
    assert x in multiset(r);
    forall y | y in s ensures y in r {
      assert y in multiset(s);
      assert y in multiset(r);
    }
    forall i | 0 <= i < |r| ensures r[i] == x || r[i] in s {
      assert r[i] in multiset(r);
      if r[i] != x {
        assert r[i] in multiset(s);
      }
    }
  }

  /** Inserting into a list sorted latest-first keeps it sorted. */
  lemma {:induction false} InsertDescSorted<T>(x: T, s: seq<T>, key: T -> int)
    requires SortedDesc(s, key)
    ensures SortedDesc(InsertDesc(x, s, key), key)
    decreases |s|
  {
    if s != [] && key(x) < key(s[0]) {
      var tail := s[1..];
      assert SortedDesc(tail, key);
      InsertDescSorted(x, tail, key);
      var rest := InsertDesc(x, tail, key);
      InsertDescElements(x, tail, key);
      forall k | 0 <= k < |rest| ensures key(rest[k]) <= key(s[0]) {
        if rest[k] != x {
          var j :| 0 <= j < |tail| && tail[j] == rest[k];
          assert tail[j] == s[j + 1];
        }
      }
      assert InsertDesc(x, s, key) == [s[0]] + rest;
    }
  }

  /** The elements of `s`, latest key first (insertion sort). */
  function SortDesc<T>(s: seq<T>, key: T -> int): (r: seq<T>)
    ensures multiset(r) == multiset(s)
    ensures SortedDesc(r, key)
    decreases |s|
  {
    if s == [] then []
    else
      assert s == [s[0]] + s[1..];
      var rest := SortDesc(s[1..], key);
      InsertDescSorted(s[0], rest, key);
      InsertDesc(s[0], rest, key)
  }

  /** `f` applied to every element, in order (`updateMany` rewriting each row). */
  function MapSeq<A, B>(s: seq<A>, f: A -> B): (r: seq<B>)
    ensures |r| == |s|
    ensures forall i :: 0 <= i < |s| ==> r[i] == f(s[i])
  {
    seq(|s|, i requires 0 <= i < |s| => f(s[i]))
  }

  /**
   * Rewriting rows with `f` does not change what a filter `p` selects when
   * `f` leaves every selected row as it is and never moves a row into or
   * out of the selection.
   */
  lemma {:induction false} FilterAfterMap<T>(s: seq<T>, f: T -> T, p: T -> bool)
    requires forall i :: 0 <= i < |s| ==> p(f(s[i])) == p(s[i])
    requires forall i :: 0 <= i < |s| && p(s[i]) ==> f(s[i]) == s[i]
    ensures Filter(MapSeq(s, f), p) == Filter(s, p)
    decreases |s|
  {
    if s != [] {
      var m := MapSeq(s, f);
      assert m[1..] == MapSeq(s[1..], f);
      assert m[0] == f(s[0]);
      FilterAfterMap(s[1..], f, p);
    }
  }

  /** Filtering first by a weaker test `q` and then by `p` is filtering by `p`. */
  lemma {:induction false} FilterOfFilter<T>(s: seq<T>, q: T -> bool, p: T -> bool)
    requires forall i :: 0 <= i < |s| && p(s[i]) ==> q(s[i])
    ensures Filter(Filter(s, q), p) == Filter(s, p)
    decreases |s|
  {
    if s != [] {
      FilterOfFilter(s[1..], q, p);
      var tail := Filter(s[1..], q);
      if q(s[0]) {
        assert Filter(s, q) == [s[0]] + tail;
        assert ([s[0]] + tail)[1..] == tail;
      } else {
        assert Filter(s, q) == tail;
      }
    }
  }

  /** No two elements of `s` share a key. */
  predicate KeysDistinct<T, K(==)>(s: seq<T>, key: T -> K)
  {
    forall i, j :: 0 <= i < j < |s| ==> key(s[i]) != key(s[j])
  }

  lemma {:induction false} FilterKeepsKeysDistinct<T, K>(s: seq<T>, p: T -> bool, key: T -> K)
    requires KeysDistinct(s, key)
    ensures KeysDistinct(Filter(s, p), key)
    decreases |s|
  {
    if s != [] {
      FilterKeepsKeysDistinct(s[1..], p, key);
      FilterMembers(s[1..], p);
      var tail := Filter(s[1..], p);
      if p(s[0]) {
        var f := [s[0]] + tail;
        assert Filter(s, p) == f;
        forall i, j | 0 <= i < j < |f| ensures key(f[i]) != key(f[j]) {
          if i == 0 {
            assert f[j] == tail[j - 1];
            assert tail[j - 1] in s[1..];
            var k :| 0 <= k < |s[1..]| && s[1..][k] == tail[j - 1];
            assert s[1..][k] == s[k + 1];
          } else {
            assert f[i] == tail[i - 1] && f[j] == tail[j - 1];
          }
        }
      }
    }
  }

  /** A filter that selects no element of `s` yields the empty sequence. */
  lemma {:induction false} FilterNone<T>(s: seq<T>, p: T -> bool)
    requires forall i :: 0 <= i < |s| ==> !p(s[i])
    ensures Filter(s, p) == []
    decreases |s|
  {
    if s != [] {
      FilterNone(s[1..], p);
    }
  }
}
