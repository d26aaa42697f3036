/**
 * A stable sort, descending on a numeric key. JavaScript's
 * `Array.prototype.sort` is stable, so the backend's
 * `sort((a, b) => key(b) - key(a))` calls mean exactly this: larger keys
 * first, and elements with equal keys keep the order they had before.
 * An ascending sort is the same sort on the negated key.
 */
module StableSort {

  ghost predicate SortedDesc<T>(s: seq<T>, key: T -> real) {
    forall i, j :: 0 <= i < j < |s| ==> key(s[i]) >= key(s[j])
  }

  /** No two elements share an identity. */
  ghost predicate DistinctBy<T, K>(s: seq<T>, id: T -> K) {
    forall i, j :: 0 <= i < j < |s| ==> id(s[i]) != id(s[j])
  }

  /** The elements whose key is v, in the order they appear in s. */
  function WithKey<T>(s: seq<T>, key: T -> real, v: real): seq<T>
  {
    if s == [] then []
    else if key(s[0]) == v then [s[0]] + WithKey(s[1..], key, v)
    else WithKey(s[1..], key, v)
  }

  /** Places x after every element whose key is at least key(x). */
  function Insert<T>(x: T, s: seq<T>, key: T -> real): (r: seq<T>)
    ensures multiset(r) == multiset(s) + multiset{x}
  {
    if s == [] then [x]
    else if key(s[0]) >= key(x) then
      assert s == [s[0]] + s[1..];
      [s[0]] + Insert(x, s[1..], key)
    else
      [x] + s
  }

  lemma {:induction false} InsertSorted<T>(x: T, s: seq<T>, key: T -> real)
    requires SortedDesc(s, key)
    ensures SortedDesc(Insert(x, s, key), key)
  {
    if s != [] && key(s[0]) >= key(x) {
      var t := Insert(x, s[1..], key);
      InsertSorted(x, s[1..], key);
      forall j | 0 <= j < |t| ensures key(s[0]) >= key(t[j]) {
        assert t[j] in multiset(t);
        if t[j] != x {
          assert t[j] in multiset(s[1..]);
          var m :| 0 <= m < |s[1..]| && s[1..][m] == t[j];
          assert s[m + 1] == t[j];
        }
      }
      var r := [s[0]] + t;
      forall i, j | 0 <= i < j < |r| ensures key(r[i]) >= key(r[j]) {
        if i > 0 {
          assert r[i] == t[i - 1] && r[j] == t[j - 1];
        } else {
          assert r[j] == t[j - 1];
        }
      }
    }
  }

  /** Insertion sort that inserts the elements in their original order. */
  function SortDesc<T>(s: seq<T>, key: T -> real): (r: seq<T>)
    ensures multiset(r) == multiset(s)
    ensures SortedDesc(r, key)
  {
    if s == [] then []
    else
      assert s == s[..|s| - 1] + [s[|s| - 1]];
      var r' := SortDesc(s[..|s| - 1], key);
      InsertSorted(s[|s| - 1], r', key);
      Insert(s[|s| - 1], r', key)
  }

  lemma {:induction false} WithKeyAppend<T>(a: seq<T>, b: seq<T>, key: T -> real, v: real)
    ensures WithKey(a + b, key, v) == WithKey(a, key, v) + WithKey(b, key, v)
  {
    if a == [] {
      assert a + b == b;
    } else {
      assert (a + b)[0] == a[0];
      assert (a + b)[1..] == a[1..] + b;
      WithKeyAppend(a[1..], b, key, v);
    }
  }

  lemma {:induction false} WithKeyNone<T>(s: seq<T>, key: T -> real, v: real)
    requires forall i :: 0 <= i < |s| ==> key(s[i]) < v
    ensures WithKey(s, key, v) == []
  {
    if s != [] {
      WithKeyNone(s[1..], key, v);
    }
  }

  lemma {:induction false} InsertStable<T>(x: T, s: seq<T>, key: T -> real, v: real)
    requires SortedDesc(s, key)
    ensures WithKey(Insert(x, s, key), key, v)
         == WithKey(s, key, v) + (if key(x) == v then [x] else [])
  {
    if s == [] {
    } else if key(s[0]) >= key(x) {
      SortedTail(s, key);
      InsertStable(x, s[1..], key, v);
      assert Insert(x, s, key) == [s[0]] + Insert(x, s[1..], key);
      WithKeyAppend([s[0]], Insert(x, s[1..], key), key, v);
      assert WithKey(s, key, v) == WithKey([s[0]], key, v) + WithKey(s[1..], key, v) by {
        assert s == [s[0]] + s[1..];
        WithKeyAppend([s[0]], s[1..], key, v);
      }
    } else {
      InsertInFront(x, s, key, v);
    }
  }

  /** x goes in front of a sorted s whose first key is below key(x), and no element of s shares x's key. */
  lemma InsertInFront<T>(x: T, s: seq<T>, key: T -> real, v: real)
    requires SortedDesc(s, key) && s != [] && key(s[0]) < key(x)
    ensures WithKey(Insert(x, s, key), key, v) == WithKey(s, key, v) + (if key(x) == v then [x] else [])
  {
    if key(x) == v {
      assert forall i :: 0 <= i < |s| ==> key(s[i]) <= key(s[0]);
      WithKeyNone(s, key, v);
    }
    assert Insert(x, s, key) == [x] + s;
    WithKeyAppend([x], s, key, v);
    assert [x][1..] == [];
  }

  lemma SortedTail<T>(s: seq<T>, key: T -> real)
    requires s != [] && SortedDesc(s, key)
    ensures SortedDesc(s[1..], key)
  {
    assert forall k :: 0 <= k < |s| - 1 ==> s[1..][k] == s[k + 1];
  }

  /** Stability: among equal keys the sorted order is the original order. */
  lemma {:induction false} SortStable<T>(s: seq<T>, key: T -> real, v: real)
    ensures WithKey(SortDesc(s, key), key, v) == WithKey(s, key, v)
  {
    if s != [] {
      var init, last := s[..|s| - 1], s[|s| - 1];
      var r' := SortDesc(init, key);
      var tail := if key(last) == v then [last] else [];
      assert SortDesc(s, key) == Insert(last, r', key);
      WithKeySnoc(s, key, v);
      InsertStable(last, r', key, v);
      SortStable(init, key, v);
    }
  }

  lemma WithKeySnoc<T>(s: seq<T>, key: T -> real, v: real)
    requires s != []
    ensures var last := s[|s| - 1];
      WithKey(s, key, v) == WithKey(s[..|s| - 1], key, v) + (if key(last) == v then [last] else [])
  {
    var init, last := s[..|s| - 1], s[|s| - 1];
    assert s == init + [last];
    WithKeyAppend(init, [last], key, v);
    assert [last][1..] == [];
  }

  lemma {:induction false} InsertAtEnd<T>(x: T, s: seq<T>, key: T -> real)
    requires forall i :: 0 <= i < |s| ==> key(s[i]) >= key(x)
    ensures Insert(x, s, key) == s + [x]
  {
    if s != [] {
      InsertAtEnd(x, s[1..], key);
    }
  }

  /** Sorting an already sorted sequence changes nothing. */
  lemma {:induction false} SortSortedIsIdentity<T>(s: seq<T>, key: T -> real)
    requires SortedDesc(s, key)
    ensures SortDesc(s, key) == s
  {
    if s != [] {
      var init, last := s[..|s| - 1], s[|s| - 1];
      SortSortedIsIdentity(init, key);
      InsertAtEnd(last, init, key);
      assert s == init + [last];
    }
  }

  lemma {:induction false} InsertDistinct<T, K>(x: T, s: seq<T>, key: T -> real, id: T -> K)
    requires DistinctBy(s, id)
    requires forall i :: 0 <= i < |s| ==> id(s[i]) != id(x)
    ensures DistinctBy(Insert(x, s, key), id)
  {
    if s != [] {
      var r := Insert(x, s, key);
      if key(s[0]) >= key(x) {
        var t := Insert(x, s[1..], key);
        InsertDistinct(x, s[1..], key, id);
        forall j | 0 <= j < |t| ensures id(s[0]) != id(t[j]) {
          assert t[j] in multiset(t);
          if t[j] != x {
            assert t[j] in multiset(s[1..]);
            var m :| 0 <= m < |s[1..]| && s[1..][m] == t[j];
            assert s[m + 1] == t[j];
          }
        }
        forall i, j | 0 <= i < j < |r| ensures id(r[i]) != id(r[j]) {
          assert r[j] == t[j - 1];
          if i > 0 {
            assert r[i] == t[i - 1];
          }
        }
      } else {
        forall i, j | 0 <= i < j < |r| ensures id(r[i]) != id(r[j]) {
          assert r[j] == s[j - 1];
          if i > 0 {
            assert r[i] == s[i - 1];
          }
        }
      }
    }
  }

  /** Sorting keeps a sequence free of repeated identities. */
  lemma {:induction false} SortDistinct<T, K>(s: seq<T>, key: T -> real, id: T -> K)
    requires DistinctBy(s, id)
    ensures DistinctBy(SortDesc(s, key), id)
  {
    if s != [] {
      var init, last := s[..|s| - 1], s[|s| - 1];
      var r' := SortDesc(init, key);
      assert SortDesc(s, key) == Insert(last, r', key);
      SortDistinct(init, key, id);
      forall i | 0 <= i < |r'| ensures id(r'[i]) != id(last) {
        assert r'[i] in multiset(init);
        var m :| 0 <= m < |init| && init[m] == r'[i];
        assert s[m] == r'[i];
      }
      InsertDistinct(last, r', key, id);
    }
  }
}
