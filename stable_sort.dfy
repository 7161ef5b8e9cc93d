/**
 * `Array.prototype.sort` with a comparator of the form `(a, b) => key(a) - key(b)`.
 * Since ECMAScript 2019 the sort is required to be stable, so its result is fully
 * determined: the stable insertion sort below is that result.
 */
module StableSort {

  /** Inserts `x` after every element whose key is at most `x`'s key. */
  function Insert<T>(x: T, s: seq<T>, key: T -> int): seq<T>
  {
    if s == [] then [x]
    else if key(s[0]) <= key(x) then [s[0]] + Insert(x, s[1..], key)
    else [x] + s
  }

  function SortBy<T>(xs: seq<T>, key: T -> int): seq<T>
  {
    if xs == [] then [] else Insert(xs[|xs| - 1], SortBy(xs[..|xs| - 1], key), key)
  }

  ghost predicate SortedBy<T>(s: seq<T>, key: T -> int)
  {
    forall i, j :: 0 <= i < j < |s| ==> key(s[i]) <= key(s[j])
  }

  /** The elements whose key is `v`, in their order in `s`. */
  function KeyClass<T>(s: seq<T>, key: T -> int, v: int): seq<T>
  {
    if s == [] then []
    else (if key(s[0]) == v then [s[0]] else []) + KeyClass(s[1..], key, v)
  }

  lemma {:induction false} KeyClassAppend<T>(a: seq<T>, b: seq<T>, key: T -> int, v: int)
    ensures KeyClass(a + b, key, v) == KeyClass(a, key, v) + KeyClass(b, key, v)
  {
    if a == [] {
      assert a + b == b;
    } else {
      var head := if key(a[0]) == v then [a[0]] else [];
      assert (a + b)[0] == a[0] && (a + b)[1..] == a[1..] + b;
      assert KeyClass(a + b, key, v) == head + KeyClass(a[1..] + b, key, v);
      assert KeyClass(a, key, v) == head + KeyClass(a[1..], key, v);
      KeyClassAppend(a[1..], b, key, v);
    }
  }

  lemma {:induction false} KeyClassNone<T>(s: seq<T>, key: T -> int, v: int)
    requires forall k :: 0 <= k < |s| ==> key(s[k]) != v
    ensures KeyClass(s, key, v) == []
  {
    if s != [] {
      KeyClassNone(s[1..], key, v);
    }
  }

  lemma {:induction false} InsertSorted<T>(x: T, s: seq<T>, key: T -> int)
    requires SortedBy(s, key)
    ensures SortedBy(Insert(x, s, key), key)
    ensures Insert(x, s, key)[0] == if s == [] || key(x) < key(s[0]) then x else s[0]
  {
    if s != [] && key(s[0]) <= key(x) {
      var t := Insert(x, s[1..], key);
      InsertSorted(x, s[1..], key);
      assert key(s[0]) <= key(t[0]);
      assert Insert(x, s, key) == [s[0]] + t;
    }
  }

  lemma {:induction false} InsertPermutes<T>(x: T, s: seq<T>, key: T -> int)
    ensures multiset(Insert(x, s, key)) == multiset(s) + multiset{x}
    ensures |Insert(x, s, key)| == |s| + 1
  {
    if s != [] && key(s[0]) <= key(x) {
      InsertPermutes(x, s[1..], key);
      assert s == [s[0]] + s[1..];
    }
  }

  /** The tail of an ordered sequence is ordered, and no element has a smaller key than the first. */
  lemma SortedTail<T>(s: seq<T>, key: T -> int)
    requires SortedBy(s, key) && s != []
    ensures SortedBy(s[1..], key)
    ensures forall k :: 0 <= k < |s| ==> key(s[0]) <= key(s[k])
  {
    forall i, j | 0 <= i < j < |s[1..]| ensures key(s[1..][i]) <= key(s[1..][j]) {
      assert s[1..][i] == s[i + 1] && s[1..][j] == s[j + 1];
    }
  }

  /** Dropping the last element of an ordered sequence leaves it ordered, below that element. */
  lemma SortedInit<T>(s: seq<T>, key: T -> int)
    requires SortedBy(s, key) && s != []
    ensures SortedBy(s[..|s| - 1], key)
    ensures forall k :: 0 <= k < |s| - 1 ==> key(s[k]) <= key(s[|s| - 1])
  {
  }

  lemma {:induction false} InsertKeyClass<T>(x: T, s: seq<T>, key: T -> int, v: int)
    requires SortedBy(s, key)
    ensures KeyClass(Insert(x, s, key), key, v) == KeyClass(s, key, v) + (if key(x) == v then [x] else [])
  {
    var tail := if key(x) == v then [x] else [];
    if s == [] {
      assert Insert(x, s, key) == [x];
      assert [x][1..] == [];
    } else if key(s[0]) <= key(x) {
      var head := if key(s[0]) == v then [s[0]] else [];
      var r := Insert(x, s, key);
      var t := Insert(x, s[1..], key);
      SortedTail(s, key);
      InsertKeyClass(x, s[1..], key, v);
      assert r == [s[0]] + t;
      assert r[0] == s[0] && r[1..] == t;
      assert KeyClass(r, key, v) == head + KeyClass(t, key, v);
      assert KeyClass(s, key, v) == head + KeyClass(s[1..], key, v);
    } else {
      var r := [x] + s;
      assert Insert(x, s, key) == r;
      assert r[0] == x && r[1..] == s;
      assert KeyClass(r, key, v) == tail + KeyClass(s, key, v);
      if key(x) == v {
        // every element of s has a larger key than x, so none of them is in v's class
        SortedTail(s, key);
        KeyClassNone(s, key, v);
      }
    }
  }

  lemma {:induction false} SortSorted<T>(xs: seq<T>, key: T -> int)
    ensures SortedBy(SortBy(xs, key), key)
  {
    if xs != [] {
      SortSorted(xs[..|xs| - 1], key);
      InsertSorted(xs[|xs| - 1], SortBy(xs[..|xs| - 1], key), key);
    }
  }

  lemma {:induction false} SortPermutes<T>(xs: seq<T>, key: T -> int)
    ensures multiset(SortBy(xs, key)) == multiset(xs)
    ensures |SortBy(xs, key)| == |xs|
  {
    if xs != [] {
      var init, last := xs[..|xs| - 1], xs[|xs| - 1];
      SortPermutes(init, key);
      InsertPermutes(last, SortBy(init, key), key);
      assert xs == init + [last];
    }
  }

  lemma {:induction false} SortStable<T>(xs: seq<T>, key: T -> int, v: int)
    ensures KeyClass(SortBy(xs, key), key, v) == KeyClass(xs, key, v)
  {
    if xs != [] {
      var init, last := xs[..|xs| - 1], xs[|xs| - 1];
      var sorted := SortBy(init, key);
      var tail := if key(last) == v then [last] else [];
      SortStable(init, key, v);
      SortSorted(init, key);
      InsertKeyClass(last, sorted, key, v);
      assert KeyClass(SortBy(xs, key), key, v) == KeyClass(init, key, v) + tail;
      assert [last][1..] == [];
      assert KeyClass([last], key, v) == tail;
      assert xs == init + [last];
      KeyClassAppend(init, [last], key, v);
    }
  }

  /** Sorting keeps the length. */
  lemma SortLength<T>(xs: seq<T>, key: T -> int)
    ensures |SortBy(xs, key)| == |xs|
  {
    SortPermutes(xs, key);
  }

  /** The sort is ordered by key, a permutation of its input, and stable: each key class keeps its order. */
  lemma SortByFacts<T>(xs: seq<T>, key: T -> int)
    ensures SortedBy(SortBy(xs, key), key)
    ensures multiset(SortBy(xs, key)) == multiset(xs)
    ensures |SortBy(xs, key)| == |xs|
    ensures forall v :: KeyClass(SortBy(xs, key), key, v) == KeyClass(xs, key, v)
  {
    SortSorted(xs, key);
    SortPermutes(xs, key);
    forall v ensures KeyClass(SortBy(xs, key), key, v) == KeyClass(xs, key, v) {
      SortStable(xs, key, v);
    }
  }

  /** Sorting an already ordered sequence leaves it unchanged. */
  lemma {:induction false} SortSortedIsIdentity<T>(xs: seq<T>, key: T -> int)
    requires SortedBy(xs, key)
    ensures SortBy(xs, key) == xs
  {
    if xs != [] {
      var init, last := xs[..|xs| - 1], xs[|xs| - 1];
      SortSortedIsIdentity(init, key);
      InsertAtEnd(last, init, key);
      assert xs == init + [last];
    }
  }

  lemma {:induction false} InsertAtEnd<T>(x: T, s: seq<T>, key: T -> int)
    requires forall k :: 0 <= k < |s| ==> key(s[k]) <= key(x)
    ensures Insert(x, s, key) == s + [x]
  {
    if s != [] {
      InsertAtEnd(x, s[1..], key);
      assert s == [s[0]] + s[1..];
    }
  }

  /** No two elements share a value of `f`. */
  ghost predicate DistinctBy<T>(s: seq<T>, f: T -> int)
  {
    forall i, j :: 0 <= i < j < |s| ==> f(s[i]) != f(s[j])
  }

  lemma {:induction false} InsertDistinct<T>(x: T, s: seq<T>, key: T -> int, f: T -> int)
    requires DistinctBy(s, f)
    requires forall k :: 0 <= k < |s| ==> f(s[k]) != f(x)
    ensures DistinctBy(Insert(x, s, key), f)
  {
    if s == [] {
      assert Insert(x, s, key) == [x];
    } else if key(s[0]) <= key(x) {
      var rest := s[1..];
      var t := Insert(x, rest, key);
      var r := [s[0]] + t;
      forall i, j | 0 <= i < j < |rest| ensures f(rest[i]) != f(rest[j]) {
        assert rest[i] == s[i + 1] && rest[j] == s[j + 1];
      }
      forall k | 0 <= k < |rest| ensures f(rest[k]) != f(x) {
        assert rest[k] == s[k + 1];
      }
      InsertDistinct(x, rest, key, f);
      InsertMembers(x, rest, key);
      forall j | 0 <= j < |t| ensures f(s[0]) != f(t[j]) {
        if t[j] != x {
          var k :| 0 <= k < |rest| && rest[k] == t[j];
          assert rest[k] == s[k + 1];
        }
      }
      assert Insert(x, s, key) == r;
      forall i, j | 0 <= i < j < |r| ensures f(r[i]) != f(r[j]) {
        assert r[j] == t[j - 1];
        if i > 0 {
          assert r[i] == t[i - 1];
        }
      }
    } else {
      var r := [x] + s;
      assert Insert(x, s, key) == r;
      forall i, j | 0 <= i < j < |r| ensures f(r[i]) != f(r[j]) {
        assert r[j] == s[j - 1];
        if i > 0 {
          assert r[i] == s[i - 1];
        }
      }
    }
  }

  /** Every element of `Insert(x, s)` is `x` or an element of `s`. */
  lemma {:induction false} InsertMembers<T>(x: T, s: seq<T>, key: T -> int)
    ensures forall j :: 0 <= j < |Insert(x, s, key)| ==>
      Insert(x, s, key)[j] == x || exists k :: 0 <= k < |s| && s[k] == Insert(x, s, key)[j]
  {
    InsertPermutes(x, s, key);
    var r := Insert(x, s, key);
    forall j | 0 <= j < |r| ensures r[j] == x || exists k :: 0 <= k < |s| && s[k] == r[j] {
      assert r[j] in multiset(r);
      if r[j] != x {
        assert r[j] in multiset(s);
        assert r[j] in s;
      }
    }
  }

  /** Sorting keeps values of `f` that were pairwise distinct pairwise distinct. */
  lemma {:induction false} SortDistinct<T>(xs: seq<T>, key: T -> int, f: T -> int)
    requires DistinctBy(xs, f)
    ensures DistinctBy(SortBy(xs, key), f)
  {
    if xs != [] {
      var init, last := xs[..|xs| - 1], xs[|xs| - 1];
      var sorted := SortBy(init, key);
      SortDistinct(init, key, f);
      SortPermutes(init, key);
      forall k | 0 <= k < |sorted| ensures f(sorted[k]) != f(last) {
        assert sorted[k] in multiset(init);
      }
      InsertDistinct(last, sorted, key, f);
    }
  }
}
