/** Counting and first-occurrence de-duplication over sequences.
    `Distinct` is what a JavaScript `Set` built from a list holds, in its
    insertion order: the first occurrence of every element. */
module Sequences {
  import opened Wrappers

  /** Number of occurrences of `x` in `s`. */
  function Count<T(==)>(s: seq<T>, x: T): (n: nat)
    ensures n <= |s|
    ensures n == 0 <==> x !in s
  {
    if |s| == 0 then 0
    else Count(s[..|s| - 1], x) + (if s[|s| - 1] == x then 1 else 0)
  }

  lemma CountSnoc<T>(s: seq<T>, x: T, y: T)
    ensures Count(s + [x], y) == Count(s, y) + if x == y then 1 else 0
  {
    assert (s + [x])[..|s|] == s;
  }

  lemma {:induction false} CountAppend<T>(a: seq<T>, b: seq<T>, x: T)
    ensures Count(a + b, x) == Count(a, x) + Count(b, x)
    decreases |b|
  {
    if |b| == 0 {
      assert a + b == a;
    } else {
      assert (a + b)[..|a + b| - 1] == a + b[..|b| - 1];
      CountAppend(a, b[..|b| - 1], x);
    }
  }

  /** No element occurs twice. */
  predicate NoDuplicates<T(==)>(s: seq<T>) {
    forall i, j :: 0 <= i < j < |s| ==> s[i] != s[j]
  }

  /** The first occurrence of every element of `s`, in order. */
  function Distinct<T(==)>(s: seq<T>): (d: seq<T>)
    ensures |d| <= |s|
    ensures forall i :: 0 <= i < |d| ==> d[i] in s
    ensures forall i :: 0 <= i < |s| ==> s[i] in d
    ensures NoDuplicates(d)
  {
    if |s| == 0 then []
    else
      var prefix := Distinct(s[..|s| - 1]);
      var last := s[|s| - 1];
      assert forall i :: 0 <= i < |s| - 1 ==> s[i] == s[..|s| - 1][i];
      if last in prefix then prefix else prefix + [last]
  }

  /** One step of the left fold that defines `Distinct`. */
  lemma DistinctSnoc<T>(s: seq<T>, x: T)
    ensures Distinct(s + [x]) == if x in s then Distinct(s) else Distinct(s) + [x]
  {
    assert (s + [x])[..|s + [x]| - 1] == s;
  }

  /** Index of the first occurrence of `x` in `s`. */
  function FirstIndex<T(==)>(s: seq<T>, x: T): (k: nat)
    requires x in s
    ensures k < |s| && s[k] == x && x !in s[..k]
  {
    if s[0] == x then 0
    else
      assert x in s[1..];
      var k := FirstIndex(s[1..], x);
      assert s[..k + 1] == [s[0]] + s[1..][..k];
      k + 1
  }

  lemma FirstIndexPrefix<T>(s: seq<T>, t: seq<T>, x: T)
    requires x in s
    ensures x in s + t && FirstIndex(s + t, x) == FirstIndex(s, x)
  {
    var k := FirstIndex(s, x);
    var k' := FirstIndex(s + t, x);
    assert (s + t)[k] == x;
    assert (s + t)[..k'] == s[..k'] || k' >= |s|;
  }

  lemma FirstIndexOfNew<T>(p: seq<T>, x: T)
    requires x !in p
    ensures x in p + [x] && FirstIndex(p + [x], x) == |p|
  {
    assert (p + [x])[|p|] == x;
  }

  /** An element first seen at the end comes after every earlier one. */
  lemma DistinctOrderLast<T>(p: seq<T>, last: T, i: nat)
    requires last !in p && i < |Distinct(p)|
    ensures Distinct(p)[i] in p + [last] && last in p + [last]
    ensures FirstIndex(p + [last], Distinct(p)[i]) < FirstIndex(p + [last], last)
  {
    var x := Distinct(p)[i];
    FirstIndexPrefix(p, [last], x);
    FirstIndexOfNew(p, last);
  }

  /** Distinct keeps first occurrences in input order. */
  lemma {:induction false} DistinctOrder<T>(s: seq<T>, i: nat, j: nat)
    requires i < j < |Distinct(s)|
    ensures FirstIndex(s, Distinct(s)[i]) < FirstIndex(s, Distinct(s)[j])
    decreases |s|
  {
    var p := s[..|s| - 1];
    var last := s[|s| - 1];
    assert s == p + [last];
    var d := Distinct(s);
    var dp := Distinct(p);
    DistinctSnoc(p, last);
    if j < |dp| {
      assert d[i] == dp[i] && d[j] == dp[j];
      DistinctOrder(p, i, j);
      FirstIndexPrefix(p, [last], dp[i]);
      FirstIndexPrefix(p, [last], dp[j]);
    } else {
      assert last !in p && d == dp + [last];
      assert d[i] == dp[i] && d[j] == last;
      DistinctOrderLast(p, last, i);
    }
  }

  /** Distinct is idempotent; a sequence without duplicates is its own Distinct. */
  lemma {:induction false} DistinctOfNoDuplicates<T>(s: seq<T>)
    requires NoDuplicates(s)
    ensures Distinct(s) == s
    decreases |s|
  {
    if |s| > 0 {
      var p := s[..|s| - 1];
      assert s == p + [s[|s| - 1]];
      assert NoDuplicates(p);
      DistinctOfNoDuplicates(p);
      assert s[|s| - 1] !in p;
    }
  }

  /** A duplicate-free sequence has as many elements as its set. */
  lemma {:induction false} NoDuplicatesCardinality<T>(s: seq<T>)
    requires NoDuplicates(s)
    ensures |set x | x in s| == |s|
    decreases |s|
  {
    if |s| > 0 {
      var p := s[..|s| - 1];
      var last := s[|s| - 1];
      assert NoDuplicates(p);
      NoDuplicatesCardinality(p);
      assert last !in p;
      assert (set x | x in s) == (set x | x in p) + {last};
    }
  }

  lemma DistinctSameElements<T>(s: seq<T>)
    ensures forall x :: x in Distinct(s) <==> x in s
  {
    var d := Distinct(s);
    forall x | x in s ensures x in d {
      var k :| 0 <= k < |s| && s[k] == x;
    }
  }

  /** The size of a `Set` built from `s`. */
  lemma DistinctCardinality<T>(s: seq<T>)
    ensures |Distinct(s)| == |set x | x in s|
  {
    var d := Distinct(s);
    NoDuplicatesCardinality(d);
    DistinctSameElements(s);
    assert (set x | x in d) == (set x | x in s);
  }

  /** The key of every element, in order. */
  function KeysOf<T, K>(s: seq<T>, key: T -> K): (ks: seq<K>)
    ensures |ks| == |s|
    ensures forall i :: 0 <= i < |s| ==> ks[i] == key(s[i])
  {
    if |s| == 0 then [] else KeysOf(s[..|s| - 1], key) + [key(s[|s| - 1])]
  }

  lemma KeysOfSnoc<T, K>(s: seq<T>, x: T, key: T -> K)
    ensures KeysOf(s + [x], key) == KeysOf(s, key) + [key(x)]
  {
    assert (s + [x])[..|s|] == s;
  }

  /** The first element of every key, in order: what a loop that skips an
      element whose key it has already put in a `Set` keeps. */
  function DistinctBy<T, K(==)>(s: seq<T>, key: T -> K): (d: seq<T>)
    ensures |d| <= |s|
  {
    if |s| == 0 then []
    else
      var prefix := DistinctBy(s[..|s| - 1], key);
      var last := s[|s| - 1];
      if key(last) in KeysOf(prefix, key) then prefix else prefix + [last]
  }

  lemma {:induction false} DistinctByMembers<T, K>(s: seq<T>, key: T -> K)
    ensures forall x :: x in DistinctBy(s, key) ==> x in s
    decreases |s|
  {
    if |s| > 0 {
      var p := s[..|s| - 1];
      var last := s[|s| - 1];
      assert s == p + [last];
      DistinctByMembers(p, key);
      DistinctBySnoc(p, last, key);
      forall x | x in DistinctBy(s, key) ensures x in s {
        if x != last {
          assert x in DistinctBy(p, key);
        }
      }
    }
  }

  lemma {:induction false} DistinctByCovers<T, K>(s: seq<T>, key: T -> K)
    ensures forall i :: 0 <= i < |s| ==> key(s[i]) in KeysOf(DistinctBy(s, key), key)
    decreases |s|
  {
    if |s| > 0 {
      var p := s[..|s| - 1];
      var last := s[|s| - 1];
      assert s == p + [last];
      DistinctByCovers(p, key);
      DistinctBySnoc(p, last, key);
      var kp := KeysOf(DistinctBy(p, key), key);
      var kd := KeysOf(DistinctBy(s, key), key);
      if key(last) !in kp {
        KeysOfSnoc(DistinctBy(p, key), last, key);
        assert kd == kp + [key(last)];
      }
      forall i | 0 <= i < |s| ensures key(s[i]) in kd {
        if i < |p| {
          assert s[i] == p[i];
          assert key(p[i]) in kp;
        }
      }
    }
  }

  lemma {:induction false} DistinctByKeysUnique<T, K>(s: seq<T>, key: T -> K)
    ensures NoDuplicates(KeysOf(DistinctBy(s, key), key))
    decreases |s|
  {
    if |s| > 0 {
      var p := s[..|s| - 1];
      var last := s[|s| - 1];
      assert s == p + [last];
      DistinctByKeysUnique(p, key);
      DistinctBySnoc(p, last, key);
      var kp := KeysOf(DistinctBy(p, key), key);
      if key(last) !in kp {
        KeysOfSnoc(DistinctBy(p, key), last, key);
        assert KeysOf(DistinctBy(s, key), key) == kp + [key(last)];
      }
    }
  }

  /** `DistinctBy` keeps only elements of `s`, one per key, and a
      representative of every key. */
  lemma DistinctByFacts<T, K>(s: seq<T>, key: T -> K)
    ensures forall x :: x in DistinctBy(s, key) ==> x in s
    ensures forall i :: 0 <= i < |s| ==> key(s[i]) in KeysOf(DistinctBy(s, key), key)
    ensures NoDuplicates(KeysOf(DistinctBy(s, key), key))
  {
    DistinctByMembers(s, key);
    DistinctByCovers(s, key);
    DistinctByKeysUnique(s, key);
  }

  /** One step of the left fold that defines `DistinctBy`. */
  lemma DistinctBySnoc<T, K>(s: seq<T>, x: T, key: T -> K)
    ensures DistinctBy(s + [x], key)
      == if key(x) in KeysOf(DistinctBy(s, key), key) then DistinctBy(s, key) else DistinctBy(s, key) + [x]
  {
    assert (s + [x])[..|s + [x]| - 1] == s;
  }

  /** Of two elements with one key only the first is kept. */
  lemma DistinctByPair<T, K>(x: T, y: T, key: T -> K)
    requires key(x) == key(y)
    ensures DistinctBy([x, y], key) == [x]
  {
    DistinctBySnoc([], x, key);
    assert [] + [x] == [x];
    DistinctBySnoc([x], y, key);
    assert [x] + [y] == [x, y];
  }

  /** An element whose key no earlier element has is kept. */
  lemma {:induction false} DistinctByKeepsFirst<T, K>(s: seq<T>, key: T -> K, i: nat)
    requires i < |s|
    requires forall k :: 0 <= k < i ==> key(s[k]) != key(s[i])
    ensures s[i] in DistinctBy(s, key)
    decreases |s|
  {
    var p := s[..|s| - 1];
    var last := s[|s| - 1];
    assert s == p + [last];
    DistinctBySnoc(p, last, key);
    if i < |s| - 1 {
      assert p[i] == s[i];
      assert forall k :: 0 <= k < i ==> p[k] == s[k];
      DistinctByKeepsFirst(p, key, i);
    } else {
      assert forall k :: 0 <= k < |p| ==> key(p[k]) != key(last);
      DistinctByNewKey(p, last, key);
    }
  }

  lemma DistinctByNewKey<T, K>(p: seq<T>, x: T, key: T -> K)
    requires forall k :: 0 <= k < |p| ==> key(p[k]) != key(x)
    ensures key(x) !in KeysOf(DistinctBy(p, key), key)
  {
    var prefix := DistinctBy(p, key);
    DistinctByFacts(p, key);
    forall j | 0 <= j < |prefix| ensures KeysOf(prefix, key)[j] != key(x) {
      assert prefix[j] in prefix;
      var k :| 0 <= k < |p| && p[k] == prefix[j];
    }
  }

  /** A sequence whose keys are all different is kept whole: `DistinctBy`
      is idempotent. */
  lemma {:induction false} DistinctByOfDistinctKeys<T, K>(s: seq<T>, key: T -> K)
    requires NoDuplicates(KeysOf(s, key))
    ensures DistinctBy(s, key) == s
    decreases |s|
  {
    if |s| > 0 {
      var p := s[..|s| - 1];
      assert s == p + [s[|s| - 1]];
      assert KeysOf(p, key) == KeysOf(s, key)[..|p|];
      DistinctByOfDistinctKeys(p, key);
      assert key(s[|s| - 1]) !in KeysOf(p, key);
    }
  }

  /** `d` is `s` with some elements left out, the rest in the same order. */
  ghost predicate IsSubsequence<T>(d: seq<T>, s: seq<T>)
    decreases |s|
  {
    if |d| == 0 then true
    else if |s| == 0 then false
    else
      || (d[|d| - 1] == s[|s| - 1] && IsSubsequence(d[..|d| - 1], s[..|s| - 1]))
      || IsSubsequence(d, s[..|s| - 1])
  }

  /** The kept elements appear in input order. */
  lemma {:induction false} DistinctBySubsequence<T, K>(s: seq<T>, key: T -> K)
    ensures IsSubsequence(DistinctBy(s, key), s)
    decreases |s|
  {
    if |s| > 0 {
      var p := s[..|s| - 1];
      var prefix := DistinctBy(p, key);
      DistinctBySubsequence(p, key);
      if key(s[|s| - 1]) !in KeysOf(prefix, key) {
        var d := prefix + [s[|s| - 1]];
        assert d[..|d| - 1] == prefix;
      }
    }
  }

  lemma {:induction false} MultisetAtMostOnce<T>(s: seq<T>, x: T)
    requires NoDuplicates(s)
    ensures multiset(s)[x] <= 1
    decreases |s|
  {
    if |s| > 0 {
      var p := s[..|s| - 1];
      assert s == p + [s[|s| - 1]];
      assert NoDuplicates(p);
      MultisetAtMostOnce(p, x);
      if x == s[|s| - 1] {
        assert x !in p;
      }
    }
  }

  /** A rearrangement of a duplicate-free sequence is duplicate-free. */
  lemma NoDuplicatesPermutation<T>(a: seq<T>, b: seq<T>)
    requires NoDuplicates(a) && multiset(a) == multiset(b)
    ensures NoDuplicates(b)
  {
    forall i, j | 0 <= i < j < |b| ensures b[i] != b[j] {
      if b[i] == b[j] {
        var x := b[i];
        assert b == b[..j] + [b[j]] + b[j + 1..];
        assert x in b[..j];
        assert multiset(b)[x] >= 2 by {
          assert multiset(b) == multiset(b[..j]) + multiset{x} + multiset(b[j + 1..]);
        }
        MultisetAtMostOnce(a, x);
      }
    }
  }

  /** One step of `DistinctByInjective`: an element whose key only it has. */
  lemma InjectiveStep<T, K>(p: seq<T>, last: T, key: T -> K)
    requires DistinctBy(p, key) == Distinct(p)
    requires forall x :: x in p && key(x) == key(last) ==> x == last
    ensures DistinctBy(p + [last], key) == Distinct(p + [last])
  {
    DistinctBySnoc(p, last, key);
    DistinctSnoc(p, last);
    var d := Distinct(p);
    if last in p {
      var i :| 0 <= i < |p| && p[i] == last;
      assert last in d;
      var j :| 0 <= j < |d| && d[j] == last;
      assert KeysOf(d, key)[j] == key(last);
    } else {
      forall j | 0 <= j < |d| ensures KeysOf(d, key)[j] != key(last) {
        assert d[j] in p;
      }
    }
  }

  /** When no two different elements share a key, keeping the first element
      of every key is keeping the first occurrence of every element. */
  lemma {:induction false} DistinctByInjective<T, K>(s: seq<T>, key: T -> K)
    requires forall x, y :: x in s && y in s && key(x) == key(y) ==> x == y
    ensures DistinctBy(s, key) == Distinct(s)
    decreases |s|
  {
    if |s| > 0 {
      var p := s[..|s| - 1];
      var last := s[|s| - 1];
      assert s == p + [last];
      assert forall x :: x in p ==> x in s;
      DistinctByInjective(p, key);
      forall x | x in p && key(x) == key(last) ensures x == last {
        assert x in s && last in s;
      }
      InjectiveStep(p, last, key);
    }
  }

  function Kept<U>(c: Option<U>): seq<U> {
    if c.Some? then [c.value] else []
  }

  /** `f` applied to every element, the `None` results dropped, order kept:
      a loop that transforms each element and skips some with `continue`. */
  function FilterMap<T, U>(s: seq<T>, f: T -> Option<U>): (r: seq<U>)
    ensures |r| <= |s|
  {
    if |s| == 0 then [] else FilterMap(s[..|s| - 1], f) + Kept(f(s[|s| - 1]))
  }

  /** One step of the left fold that defines `FilterMap`. */
  lemma FilterMapSnoc<T, U>(s: seq<T>, x: T, f: T -> Option<U>)
    ensures FilterMap(s + [x], f) == FilterMap(s, f) + Kept(f(x))
  {
    assert (s + [x])[..|s|] == s;
  }

  /** Every element that `f` keeps is in the result ... */
  lemma {:induction false} FilterMapComplete<T, U>(s: seq<T>, f: T -> Option<U>, j: nat)
    requires j < |s| && f(s[j]).Some?
    ensures f(s[j]).value in FilterMap(s, f)
    decreases |s|
  {
    var p := s[..|s| - 1];
    assert s == p + [s[|s| - 1]];
    FilterMapSnoc(p, s[|s| - 1], f);
    if j < |p| {
      assert p[j] == s[j];
      FilterMapComplete(p, f, j);
    }
  }

  /** ... and the result holds nothing else. */
  lemma {:induction false} FilterMapSound<T, U>(s: seq<T>, f: T -> Option<U>, y: U)
    requires y in FilterMap(s, f)
    ensures exists j :: 0 <= j < |s| && f(s[j]) == Some(y)
    decreases |s|
  {
    var p := s[..|s| - 1];
    var last := s[|s| - 1];
    assert s == p + [last];
    FilterMapSnoc(p, last, f);
    if y in FilterMap(p, f) {
      FilterMapSound(p, f, y);
      var j :| 0 <= j < |p| && f(p[j]) == Some(y);
      assert s[j] == p[j];
    } else {
      assert f(s[|s| - 1]) == Some(y);
    }
  }
}
