/** A stable sort in descending order of a numeric key, which is what
    `Array.prototype.sort` (stable since ECMAScript 2019) computes with the
    comparator `(a, b) => key(b) - key(a)`. The sort is defined as an
    insertion sort and proved sorted, a permutation and stable; the
    uniqueness lemma shows that any stable descending sort gives the same
    sequence, so the definition stands for whatever algorithm the engine uses. */
module StableSort {

  /** Non-increasing by `key`. */
  ghost predicate SortedDesc<T>(s: seq<T>, key: T -> real) {
    forall i, j :: 0 <= i < j < |s| ==> key(s[i]) >= key(s[j])
  }

  /** The elements of `s` whose key is `v`, in order. */
  function KeyFilter<T>(s: seq<T>, key: T -> real, v: real): seq<T>
  {
    if |s| == 0 then []
    else (if key(s[0]) == v then [s[0]] else []) + KeyFilter(s[1..], key, v)
  }

  /** Places `x` in front of the first element whose key is not larger. */
  function Insert<T>(x: T, s: seq<T>, key: T -> real): (r: seq<T>)
    ensures |r| == |s| + 1
    ensures multiset(r) == multiset(s) + multiset{x}
  {
    if |s| == 0 || key(x) >= key(s[0]) then [x] + s
    else
      assert s == [s[0]] + s[1..];
      [s[0]] + Insert(x, s[1..], key)
  }

  /** `s` sorted by descending `key`; elements with equal keys keep their order. */
  function Sort<T>(s: seq<T>, key: T -> real): (r: seq<T>)
    ensures |r| == |s|
    ensures multiset(r) == multiset(s)
  {
    if |s| == 0 then []
    else
      assert s == [s[0]] + s[1..];
      Insert(s[0], Sort(s[1..], key), key)
  }

  lemma {:induction false} KeyFilterAppend<T>(a: seq<T>, b: seq<T>, key: T -> real, v: real)
    ensures KeyFilter(a + b, key, v) == KeyFilter(a, key, v) + KeyFilter(b, key, v)
    decreases |a|
  {
    if |a| == 0 {
      assert a + b == b;
    } else {
      var h := if key(a[0]) == v then [a[0]] else [];
      assert (a + b)[0] == a[0] && (a + b)[1..] == a[1..] + b;
      assert KeyFilter(a + b, key, v) == h + KeyFilter(a[1..] + b, key, v);
      KeyFilterAppend(a[1..], b, key, v);
      assert h + (KeyFilter(a[1..], key, v) + KeyFilter(b, key, v))
          == (h + KeyFilter(a[1..], key, v)) + KeyFilter(b, key, v);
    }
  }

  lemma {:induction false} KeyFilterMembers<T>(s: seq<T>, key: T -> real, v: real, x: T)
    requires x in KeyFilter(s, key, v)
    ensures x in s && key(x) == v
    decreases |s|
  {
    if key(s[0]) != v || x != s[0] {
      KeyFilterMembers(s[1..], key, v, x);
    }
  }

  /** Every key in `s` is at most `k`. */
  ghost predicate Bounds<T>(k: real, s: seq<T>, key: T -> real) {
    forall i :: 0 <= i < |s| ==> k >= key(s[i])
  }

  lemma SortedCons<T>(y: T, t: seq<T>, key: T -> real)
    ensures SortedDesc([y] + t, key) <==> Bounds(key(y), t, key) && SortedDesc(t, key)
  {
    var r := [y] + t;
    if Bounds(key(y), t, key) && SortedDesc(t, key) {
      forall i, j | 0 <= i < j < |r| ensures key(r[i]) >= key(r[j]) {
        assert r[j] == t[j - 1];
        if i > 0 { assert r[i] == t[i - 1]; }
      }
    }
    if SortedDesc(r, key) {
      forall i | 0 <= i < |t| ensures key(y) >= key(t[i]) {
        assert r[0] == y && r[i + 1] == t[i];
        assert key(r[0]) >= key(r[i + 1]);
      }
      forall i, j | 0 <= i < j < |t| ensures key(t[i]) >= key(t[j]) {
        assert r[i + 1] == t[i] && r[j + 1] == t[j];
      }
    }
  }

  lemma BoundsOfPermutation<T>(k: real, a: seq<T>, b: seq<T>, x: T, key: T -> real)
    requires multiset(a) == multiset(b) + multiset{x}
    requires Bounds(k, b, key) && k >= key(x)
    ensures Bounds(k, a, key)
  {
    forall i | 0 <= i < |a| ensures k >= key(a[i]) {
      assert a[i] in multiset(a);
      if a[i] != x {
        assert a[i] in multiset(b);
        var j :| 0 <= j < |b| && b[j] == a[i];
      }
    }
  }

  lemma {:induction false} InsertSorted<T>(x: T, s: seq<T>, key: T -> real)
    requires SortedDesc(s, key)
    ensures SortedDesc(Insert(x, s, key), key)
    decreases |s|
  {
    if |s| == 0 || key(x) >= key(s[0]) {
      if |s| > 0 {
        SortedCons(s[0], s[1..], key);
        assert s == [s[0]] + s[1..];
      }
      SortedCons(x, s, key);
    } else {
      var t := s[1..];
      assert s == [s[0]] + t;
      SortedCons(s[0], t, key);
      InsertSorted(x, t, key);
      BoundsOfPermutation(key(s[0]), Insert(x, t, key), t, x, key);
      SortedCons(s[0], Insert(x, t, key), key);
    }
  }

  lemma {:induction false} InsertFilter<T>(x: T, s: seq<T>, key: T -> real, v: real)
    requires SortedDesc(s, key)
    ensures KeyFilter(Insert(x, s, key), key, v) == (if key(x) == v then [x] else []) + KeyFilter(s, key, v)
    decreases |s|
  {
    var r := Insert(x, s, key);
    if |s| == 0 || key(x) >= key(s[0]) {
      assert r == [x] + s;
      assert r[0] == x && r[1..] == s;
    } else {
      var t := s[1..];
      var hs := if key(s[0]) == v then [s[0]] else [];
      var hx := if key(x) == v then [x] else [];
      var kt := KeyFilter(t, key, v);
      SortedTail(s, key);
      InsertFilter(x, t, key, v);
      assert r == [s[0]] + Insert(x, t, key);
      assert r[0] == s[0] && r[1..] == Insert(x, t, key);
      assert KeyFilter(r, key, v) == hs + (hx + kt);
      assert KeyFilter(s, key, v) == hs + kt;
      // key(x) < key(s[0]), so at most one of the two heads is kept
      if hs == [] {
        assert hs + (hx + kt) == hx + kt && hs + kt == kt;
      } else {
        assert hx == [];
        assert hs + (hx + kt) == hs + kt && hx + (hs + kt) == hs + kt;
      }
    }
  }

  /** `Sort` orders by descending key, is a permutation, and is stable: the
      elements sharing any one key appear in the same order as in `s`. */
  lemma {:induction false} SortFacts<T>(s: seq<T>, key: T -> real)
    ensures SortedDesc(Sort(s, key), key)
    ensures forall v :: KeyFilter(Sort(s, key), key, v) == KeyFilter(s, key, v)
    decreases |s|
  {
    if |s| > 0 {
      SortFacts(s[1..], key);
      InsertSorted(s[0], Sort(s[1..], key), key);
      forall v ensures KeyFilter(Sort(s, key), key, v) == KeyFilter(s, key, v) {
        InsertFilter(s[0], Sort(s[1..], key), key, v);
      }
    }
  }

  lemma FilterAtHead<T>(s: seq<T>, key: T -> real)
    requires |s| > 0
    ensures KeyFilter(s, key, key(s[0])) != []
  {
  }

  /** Sequences with the same key groups are empty together. */
  lemma NonEmptyFilters<T>(a: seq<T>, b: seq<T>, key: T -> real)
    requires forall v :: KeyFilter(a, key, v) == KeyFilter(b, key, v)
    requires |a| > 0
    ensures |b| > 0
  {
    FilterAtHead(a, key);
    assert KeyFilter(b, key, key(a[0])) != [];
  }

  /** Two non-increasing sequences with the same key groups start alike. */
  lemma SameHead<T>(a: seq<T>, b: seq<T>, key: T -> real)
    requires SortedDesc(a, key) && SortedDesc(b, key) && |a| > 0 && |b| > 0
    requires forall v :: KeyFilter(a, key, v) == KeyFilter(b, key, v)
    ensures a[0] == b[0]
  {
    var m := key(a[0]);
    var n := key(b[0]);
    assert a[0] in KeyFilter(a, key, m);
    KeyFilterMembers(b, key, m, a[0]);
    var ja :| 0 <= ja < |b| && b[ja] == a[0];
    assert n >= m by { if ja > 0 { assert key(b[0]) >= key(b[ja]); } }
    assert b[0] in KeyFilter(b, key, n);
    KeyFilterMembers(a, key, n, b[0]);
    var jb :| 0 <= jb < |a| && a[jb] == b[0];
    assert m >= n by { if jb > 0 { assert key(a[0]) >= key(a[jb]); } }
    assert KeyFilter(a, key, m)[0] == a[0] && KeyFilter(b, key, m)[0] == b[0];
  }

  /** With equal heads, equal key groups stay equal on the tails. */
  lemma SameTailFilters<T>(a: seq<T>, b: seq<T>, key: T -> real)
    requires |a| > 0 && |b| > 0 && a[0] == b[0]
    requires forall v :: KeyFilter(a, key, v) == KeyFilter(b, key, v)
    ensures forall v :: KeyFilter(a[1..], key, v) == KeyFilter(b[1..], key, v)
  {
    forall v ensures KeyFilter(a[1..], key, v) == KeyFilter(b[1..], key, v) {
      var fa := KeyFilter(a[1..], key, v);
      var fb := KeyFilter(b[1..], key, v);
      if key(a[0]) == v {
        assert KeyFilter(a, key, v) == [a[0]] + fa;
        assert KeyFilter(b, key, v) == [a[0]] + fb;
        assert fa == ([a[0]] + fa)[1..];
        assert fb == ([a[0]] + fb)[1..];
      } else {
        assert KeyFilter(a, key, v) == fa;
        assert KeyFilter(b, key, v) == fb;
      }
    }
  }

  lemma SortedTail<T>(a: seq<T>, key: T -> real)
    requires SortedDesc(a, key) && |a| > 0
    ensures SortedDesc(a[1..], key)
  {
    forall i, j | 0 <= i < j < |a| - 1 ensures key(a[1..][i]) >= key(a[1..][j]) {
      assert a[1..][i] == a[i + 1] && a[1..][j] == a[j + 1];
    }
  }

  /** A stable descending sort is unique: two non-increasing sequences that
      agree on the order of the elements of every key are equal. */
  lemma {:induction false} SortedStableUnique<T>(a: seq<T>, b: seq<T>, key: T -> real)
    requires SortedDesc(a, key) && SortedDesc(b, key)
    requires forall v :: KeyFilter(a, key, v) == KeyFilter(b, key, v)
    ensures a == b
    decreases |a|
  {
    if |a| > 0 {
      NonEmptyFilters(a, b, key);
    } else if |b| > 0 {
      NonEmptyFilters(b, a, key);
    }
    if |a| > 0 {
      SameHead(a, b, key);
      SameTailFilters(a, b, key);
      SortedTail(a, key);
      SortedTail(b, key);
      SortedStableUnique(a[1..], b[1..], key);
      assert a == [a[0]] + a[1..] && b == [b[0]] + b[1..];
    }
  }

  /** The first `n` elements of the sorted sequence are sorted, keep ties
      in input order, and every element left out has a key no larger than
      any kept one. */
  lemma SortPrefixSorted<T>(s: seq<T>, key: T -> real, n: nat)
    requires n <= |s|
    ensures SortedDesc(Sort(s, key)[..n], key)
  {
    SortFacts(s, key);
  }

  lemma SortPrefixStable<T>(s: seq<T>, key: T -> real, n: nat, v: real)
    requires n <= |s|
    ensures KeyFilter(Sort(s, key)[..n], key, v) <= KeyFilter(s, key, v)
  {
    var r := Sort(s, key);
    SortFacts(s, key);
    assert r == r[..n] + r[n..];
    KeyFilterAppend(r[..n], r[n..], key, v);
  }

  lemma MultisetSplit<T>(r: seq<T>, n: nat)
    requires n <= |r|
    ensures multiset(r) - multiset(r[..n]) == multiset(r[n..])
  {
    assert r == r[..n] + r[n..];
  }

  lemma InDifference<T>(r: seq<T>, n: nat, y: T)
    requires n <= |r| && y in multiset(r) - multiset(r[..n])
    ensures y in r[n..]
  {
    MultisetSplit(r, n);
    assert y in multiset(r[n..]);
  }

  lemma PrefixKeepsBest<T>(r: seq<T>, key: T -> real, n: nat, x: T, y: T)
    requires n <= |r| && SortedDesc(r, key)
    requires x in r[..n]
    requires y in multiset(r) - multiset(r[..n])
    ensures key(x) >= key(y)
  {
    var p, q := r[..n], r[n..];
    InDifference(r, n, y);
    var i :| 0 <= i < |p| && p[i] == x;
    var j :| 0 <= j < |q| && q[j] == y;
    assert r[i] == x && r[n + j] == y && i < n + j;
  }

  lemma SortPrefixKeepsBest<T>(s: seq<T>, key: T -> real, n: nat, x: T, y: T)
    requires n <= |s|
    requires x in Sort(s, key)[..n]
    requires y in multiset(s) - multiset(Sort(s, key)[..n])
    ensures key(x) >= key(y)
  {
    SortFacts(s, key);
    PrefixKeepsBest(Sort(s, key), key, n, x, y);
  }
}
