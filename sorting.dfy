/** Sorting by a numeric key. pandas' `sort_values` (quicksort by default) is not
    stable, so the model only promises what every correct sort delivers: the
    result is ordered by the key and is a permutation of the input. */
module Sorting {

  /** `s` is in non-decreasing order of `key`. */
  predicate SortedBy<T>(s: seq<T>, key: T -> real) {
    forall i, j :: 0 <= i < j < |s| ==> key(s[i]) <= key(s[j])
  }

  /** Inserts `x` into the sorted sequence `s`. */
  function Insert<T>(x: T, s: seq<T>, key: T -> real): (r: seq<T>)
    requires SortedBy(s, key)
    ensures SortedBy(r, key)
    ensures multiset(r) == multiset(s) + multiset{x}
    ensures |r| == |s| + 1
  {
    if s == [] then [x]
    else if key(x) <= key(s[0]) then
      ConsSorted(x, s, key);
      [x] + s
    else
      TailSorted(s, key);
      var rest := Insert(x, s[1..], key);
      InsertBehind(x, s, rest, key);
      [s[0]] + rest
  }

  /** The step of `Insert` that keeps the head of `s` in front. */
  lemma InsertBehind<T>(x: T, s: seq<T>, rest: seq<T>, key: T -> real)
    requires s != [] && SortedBy(s, key) && key(s[0]) < key(x)
    requires SortedBy(rest, key) && multiset(rest) == multiset(s[1..]) + multiset{x}
    ensures SortedBy([s[0]] + rest, key)
    ensures multiset([s[0]] + rest) == multiset(s) + multiset{x}
  {
    var tail := s[1..];
    var u := [x] + tail;
    assert multiset(u) == multiset(rest) by {
      assert multiset(u) == multiset{x} + multiset(tail);
    }
    HeadBelow(x, s, key);
    LowerBound(u, rest, key, key(s[0]));
    ConsSorted(s[0], rest, key);
    assert multiset(s) == multiset{s[0]} + multiset(tail) by {
      assert s == [s[0]] + tail;
    }
    assert multiset([s[0]] + rest) == multiset{s[0]} + multiset(rest);
  }

  /** The head of a sorted `s` is at most every key of `s[1..]` and of `x` above it. */
  lemma HeadBelow<T>(x: T, s: seq<T>, key: T -> real)
    requires s != [] && SortedBy(s, key) && key(s[0]) < key(x)
    ensures forall i :: 0 <= i < |s| ==> key(s[0]) <= key(([x] + s[1..])[i])
  {
    forall i | 0 <= i < |s| ensures key(s[0]) <= key(([x] + s[1..])[i]) {
      if i > 0 {
        assert ([x] + s[1..])[i] == s[i];
      }
    }
  }

  lemma TailSorted<T>(s: seq<T>, key: T -> real)
    requires s != [] && SortedBy(s, key)
    ensures SortedBy(s[1..], key)
  {
    forall i, j | 0 <= i < j < |s| - 1 ensures key(s[1..][i]) <= key(s[1..][j]) {
      assert s[1..][i] == s[i + 1] && s[1..][j] == s[j + 1];
    }
  }

  /** A sorted sequence stays sorted under a new head whose key is at most
      the first key. */
  lemma ConsSorted<T>(h: T, t: seq<T>, key: T -> real)
    requires SortedBy(t, key)
    requires t == [] || key(h) <= key(t[0])
    ensures SortedBy([h] + t, key)
  {
    var r := [h] + t;
    forall i, j | 0 <= i < j < |r| ensures key(r[i]) <= key(r[j]) {
      if i == 0 {
        assert r[j] == t[j - 1];
        assert key(t[0]) <= key(t[j - 1]) || j - 1 == 0;
      } else {
        assert r[i] == t[i - 1] && r[j] == t[j - 1];
      }
    }
  }

  /** A permutation of values whose keys are all at least `lo` has the same bound. */
  lemma LowerBound<T>(u: seq<T>, t: seq<T>, key: T -> real, lo: real)
    requires multiset(u) == multiset(t)
    requires forall i :: 0 <= i < |u| ==> lo <= key(u[i])
    ensures forall i :: 0 <= i < |t| ==> lo <= key(t[i])
  {
    forall i | 0 <= i < |t| ensures lo <= key(t[i]) {
      assert t[i] in multiset(u);
      var j :| 0 <= j < |u| && u[j] == t[i];
    }
  }

  /** Insertion sort by `key`. */
  function Sort<T>(s: seq<T>, key: T -> real): (r: seq<T>)
    ensures SortedBy(r, key)
    ensures multiset(r) == multiset(s)
    ensures |r| == |s|
  {
    if s == [] then []
    else
      assert s == [s[0]] + s[1..];
      Insert(s[0], Sort(s[1..], key), key)
  }

  /** Any sequence that is a permutation of `s` has the same length and the same elements. */
  lemma {:induction false} PermutationMembers<T>(s: seq<T>, t: seq<T>)
    requires multiset(s) == multiset(t)
    ensures |s| == |t|
    ensures forall x :: x in s <==> x in t
  {
    assert |s| == |multiset(s)| && |t| == |multiset(t)|;
    forall x ensures x in s <==> x in t {
      assert x in s <==> x in multiset(s);
      assert x in t <==> x in multiset(t);
    }
  }

  /** Applies `f` to every element, keeping the order. */
  function MapSeq<T, U>(f: T -> U, s: seq<T>): (r: seq<U>)
    ensures |r| == |s|
    ensures forall i :: 0 <= i < |s| ==> r[i] == f(s[i])
  {
    seq(|s|, i requires 0 <= i < |s| => f(s[i]))
  }

  lemma MapSeqConcat<T, U>(f: T -> U, u: seq<T>, v: seq<T>)
    ensures MapSeq(f, u + v) == MapSeq(f, u) + MapSeq(f, v)
  {
  }

  /** Removing the same element from two equal multisets leaves equal multisets. */
  lemma Cancel<T>(m1: multiset<T>, m2: multiset<T>, x: T)
    requires multiset{x} + m1 == multiset{x} + m2
    ensures m1 == m2
  {
    forall y ensures m1[y] == m2[y] {
      assert (multiset{x} + m1)[y] == (multiset{x} + m2)[y];
    }
  }

  /** The head of `a` occurs in its permutation `b`; removing it from both
      leaves permutations of each other. */
  lemma RemoveHead<T>(a: seq<T>, b: seq<T>) returns (k: nat)
    requires a != [] && multiset(a) == multiset(b)
    ensures k < |b| && b[k] == a[0]
    ensures multiset(a[1..]) == multiset(b[..k] + b[k + 1..])
  {
    var x := a[0];
    assert x in multiset(b);
    k :| 0 <= k < |b| && b[k] == x;
    var u, v := b[..k], b[k + 1..];
    assert b == u + [x] + v;
    assert a == [x] + a[1..];
    assert multiset(b) == multiset{x} + multiset(u + v);
    Cancel(multiset(a[1..]), multiset(u + v), x);
  }

  /** Mapping a function over two permutations of each other yields two
      permutations of each other. */
  lemma {:induction false} MapSeqPermutation<T, U>(f: T -> U, a: seq<T>, b: seq<T>)
    requires multiset(a) == multiset(b)
    ensures multiset(MapSeq(f, a)) == multiset(MapSeq(f, b))
    decreases |a|
  {
    if a == [] {
      assert |b| == |multiset(b)| == 0;
    } else {
      var k := RemoveHead(a, b);
      var x, u, v := a[0], b[..k], b[k + 1..];
      assert b == u + ([x] + v);
      assert a == [x] + a[1..];
      MapSeqPermutation(f, a[1..], u + v);
      MapSeqConcat(f, [x], a[1..]);
      MapSeqConcat(f, u, [x] + v);
      MapSeqConcat(f, [x], v);
      MapSeqConcat(f, u, v);
      var fx := MapSeq(f, [x]);
      calc {
        multiset(MapSeq(f, b));
        multiset(MapSeq(f, u) + (fx + MapSeq(f, v)));
        multiset(MapSeq(f, u)) + multiset(fx) + multiset(MapSeq(f, v));
        multiset(MapSeq(f, u + v)) + multiset(fx);
        multiset(MapSeq(f, a[1..])) + multiset(fx);
        multiset(fx + MapSeq(f, a[1..]));
        multiset(MapSeq(f, a));
      }
    }
  }
}
