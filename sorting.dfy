/**
 * A stable sort by a real-valued key. Python's list.sort and sorted are library
 * calls; every use of them in the modelled code is expressed through SortBy,
 * whose result is proved to be a sorted permutation of its input.
 */
module Sorting {

  /** Keys are non-decreasing along s. */
  ghost predicate SortedBy<T>(s: seq<T>, key: T -> real)
  {
    forall i, j :: 0 <= i < j < |s| ==> key(s[i]) <= key(s[j])
  }

  /** Distinct values have distinct keys, so a sorted order is unique. */
  ghost predicate Injective<T(!new)>(key: T -> real)
  {
    forall a, b :: key(a) == key(b) ==> a == b
  }

  /** Sorting numbers by their own value. */
  function Identity(x: real): real
  {
    x
  }

  lemma {:induction false} IdentityInjective()
    ensures Injective(Identity)
  {
  }

  /** No element occurs twice. */
  ghost predicate Distinct<T>(s: seq<T>)
  {
    forall a, b :: 0 <= a < b < |s| ==> s[a] != s[b]
  }

  /** An element occurring at two positions is counted twice. */
  lemma {:induction false} CountTwice<T>(s: seq<T>, a: nat, b: nat)
    requires a < b < |s| && s[a] == s[b]
    ensures multiset(s)[s[a]] >= 2
  {
    assert s == s[..b] + [s[b]] + s[b + 1..];
    assert s[a] in multiset(s[..b]);
  }

  /** A distinct sequence holds each element at most once. */
  lemma {:induction false} DistinctCount<T>(s: seq<T>, x: T)
    requires Distinct(s)
    ensures multiset(s)[x] <= 1
  {
    if s != [] {
      var n := |s| - 1;
      assert s == s[..n] + [s[n]];
      DistinctCount(s[..n], x);
      if x == s[n] {
        assert x !in s[..n];
      }
    }
  }

  /** A rearrangement of a distinct sequence is distinct. */
  lemma {:induction false} PermutationKeepsDistinct<T>(s: seq<T>, t: seq<T>)
    requires multiset(s) == multiset(t) && Distinct(s)
    ensures Distinct(t)
  {
    forall a, b | 0 <= a < b < |t| ensures t[a] != t[b] {
      if t[a] == t[b] {
        CountTwice(t, a, b);
        DistinctCount(s, t[a]);
      }
    }
  }

  /** Insert x after every element whose key is at most x's (stability). */
  function InsertBy<T>(x: T, s: seq<T>, key: T -> real): (r: seq<T>)
    ensures |r| == |s| + 1
  {
    if s == [] then [x]
    else if key(x) < key(s[0]) then [x] + s
    else [s[0]] + InsertBy(x, s[1..], key)
  }

  /** Inserting adds x to the elements. */
  lemma {:induction false} InsertByElements<T>(x: T, s: seq<T>, key: T -> real)
    ensures multiset(InsertBy(x, s, key)) == multiset(s) + multiset{x}
  {
    if s != [] && key(x) >= key(s[0]) {
      InsertByElements(x, s[1..], key);
      assert s == [s[0]] + s[1..];
    }
  }

  /** Inserting into a sorted sequence keeps it sorted. */
  lemma {:induction false} InsertBySorted<T>(x: T, s: seq<T>, key: T -> real)
    requires SortedBy(s, key)
    ensures SortedBy(InsertBy(x, s, key), key)
  {
    if s != [] && key(x) >= key(s[0]) {
      var rest := InsertBy(x, s[1..], key);
      InsertBySorted(x, s[1..], key);
      InsertByElements(x, s[1..], key);
      assert InsertBy(x, s, key) == [s[0]] + rest;
      forall k | 0 <= k < |rest| ensures key(s[0]) <= key(rest[k]) {
        assert rest[k] in multiset(rest);
        if rest[k] != x {
          assert rest[k] in multiset(s[1..]);
          var m :| 0 <= m < |s[1..]| && s[1..][m] == rest[k];
          assert s[m + 1] == rest[k];
        }
      }
    }
  }

  /** Sort by key; elements with equal keys keep their order of appearance. */
  function SortBy<T>(s: seq<T>, key: T -> real): (r: seq<T>)
    ensures |r| == |s|
  {
    if s == [] then []
    else InsertBy(s[|s| - 1], SortBy(s[..|s| - 1], key), key)
  }

  /** SortBy orders by key and only rearranges. */
  lemma {:induction false} SortByCorrect<T>(s: seq<T>, key: T -> real)
    ensures SortedBy(SortBy(s, key), key)
    ensures multiset(SortBy(s, key)) == multiset(s)
  {
    if s != [] {
      var n := |s| - 1;
      SortByCorrect(s[..n], key);
      InsertByElements(s[n], SortBy(s[..n], key), key);
      InsertBySorted(s[n], SortBy(s[..n], key), key);
      assert s == s[..n] + [s[n]];
    }
  }

  /**
   * Two sorted arrangements of the same elements coincide when the key tells all
   * elements apart: the sorted order depends only on which elements there are.
   */
  lemma {:induction false} SortedUnique<T(!new)>(a: seq<T>, b: seq<T>, key: T -> real)
    requires Injective(key)
    requires SortedBy(a, key) && SortedBy(b, key)
    requires multiset(a) == multiset(b)
    ensures a == b
  {
    if a != [] {
      SameFirst(a, b, key);
      assert multiset(a[1..]) == multiset(b[1..]) by {
        assert a == [a[0]] + a[1..] && b == [b[0]] + b[1..];
        assert multiset(a) == multiset{a[0]} + multiset(a[1..]);
        assert multiset(b) == multiset{b[0]} + multiset(b[1..]);
        MultisetCancel(a[0], multiset(a[1..]), multiset(b[1..]));
      }
      SortedUnique(a[1..], b[1..], key);
    }
  }

  /** Sorted arrangements of the same non-empty multiset start with the same element. */
  lemma {:induction false} SameFirst<T(!new)>(a: seq<T>, b: seq<T>, key: T -> real)
    requires Injective(key)
    requires SortedBy(a, key) && SortedBy(b, key)
    requires multiset(a) == multiset(b)
    requires a != []
    ensures b != [] && a[0] == b[0]
  {
    assert a[0] in multiset(b);
    var k :| 0 <= k < |b| && b[k] == a[0];
    assert b[0] in multiset(a);
    var m :| 0 <= m < |a| && a[m] == b[0];
    assert key(a[0]) <= key(a[m]) by {
      if m > 0 { assert key(a[0]) <= key(a[m]); }
    }
    assert key(b[0]) <= key(b[k]) by {
      if k > 0 { assert key(b[0]) <= key(b[k]); }
    }
    assert key(a[0]) == key(b[0]);
  }

  lemma {:induction false} MultisetCancel<T>(x: T, p: multiset<T>, q: multiset<T>)
    requires multiset{x} + p == multiset{x} + q
    ensures p == q
  {
    forall y ensures p[y] == q[y] {
      assert (multiset{x} + p)[y] == (multiset{x} + q)[y];
    }
  }

  /** The sort of any rearrangement of s is the sort of s itself. */
  lemma {:induction false} SortByPermutation<T(!new)>(s: seq<T>, t: seq<T>, key: T -> real)
    requires Injective(key)
    requires multiset(s) == multiset(t)
    ensures SortBy(s, key) == SortBy(t, key)
  {
    SortByCorrect(s, key);
    SortByCorrect(t, key);
    SortedUnique(SortBy(s, key), SortBy(t, key), key);
  }

  /** f applied to every element, in order. */
  function Map<A, B>(f: A -> B, s: seq<A>): (r: seq<B>)
    ensures |r| == |s| && forall k :: 0 <= k < |s| ==> r[k] == f(s[k])
  {
    seq(|s|, k requires 0 <= k < |s| => f(s[k]))
  }

  lemma {:induction false} MapAppend<A, B>(f: A -> B, a: seq<A>, b: seq<A>)
    ensures Map(f, a + b) == Map(f, a) + Map(f, b)
  {
  }

  /** Taking out an occurrence of a's first element leaves the rest of a. */
  lemma {:induction false} RemoveFirst<A>(a: seq<A>, b: seq<A>, k: int)
    requires a != [] && multiset(a) == multiset(b) && 0 <= k < |b| && b[k] == a[0]
    ensures multiset(b[..k] + b[k + 1..]) == multiset(a[1..])
  {
    assert b == b[..k] + [b[k]] + b[k + 1..];
    assert multiset(b) == multiset(b[..k]) + multiset{b[k]} + multiset(b[k + 1..]);
    assert a == [a[0]] + a[1..];
    MultisetCancel(a[0], multiset(b[..k] + b[k + 1..]), multiset(a[1..]));
  }

  /** Rearranging the arguments rearranges the results. */
  lemma {:induction false} MapPermutation<A, B>(f: A -> B, a: seq<A>, b: seq<A>)
    requires multiset(a) == multiset(b)
    ensures multiset(Map(f, a)) == multiset(Map(f, b))
    decreases |a|
  {
    if a == [] {
      assert |b| == |multiset(b)| == 0;
    } else {
      assert a[0] in multiset(b);
      var k :| 0 <= k < |b| && b[k] == a[0];
      RemoveFirst(a, b, k);
      MapPermutation(f, a[1..], b[..k] + b[k + 1..]);
      assert a == [a[0]] + a[1..];
      assert b == b[..k] + [b[k]] + b[k + 1..];
      MapAppend(f, [a[0]], a[1..]);
      MapAppend(f, b[..k] + [b[k]], b[k + 1..]);
      MapAppend(f, b[..k], [b[k]]);
      MapAppend(f, b[..k], b[k + 1..]);
    }
  }

  /** The number of elements at most m (below) or at least m (not below). */
  function CountCmp(s: seq<real>, m: real, below: bool): nat
  {
    if s == [] then 0
    else CountCmp(s[1..], m, below) + (if (if below then s[0] <= m else s[0] >= m) then 1 else 0)
  }

  lemma {:induction false} CountCmpAppend(a: seq<real>, b: seq<real>, m: real, below: bool)
    ensures CountCmp(a + b, m, below) == CountCmp(a, m, below) + CountCmp(b, m, below)
  {
    if a == [] {
      assert a + b == b;
    } else {
      assert (a + b)[1..] == a[1..] + b;
      CountCmpAppend(a[1..], b, m, below);
    }
  }

  /** Counting depends only on the multiset of elements. */
  lemma {:induction false} CountCmpPermutation(a: seq<real>, b: seq<real>, m: real, below: bool)
    requires multiset(a) == multiset(b)
    ensures CountCmp(a, m, below) == CountCmp(b, m, below)
    decreases |a|
  {
    if a == [] {
      assert |b| == |multiset(b)| == 0;
    } else {
      assert a[0] in multiset(b);
      var k :| 0 <= k < |b| && b[k] == a[0];
      var rest := b[..k] + b[k + 1..];
      assert b == b[..k] + [b[k]] + b[k + 1..];
      assert multiset(rest) == multiset(a[1..]) by {
        assert multiset(b) == multiset(b[..k]) + multiset{b[k]} + multiset(b[k + 1..]);
        assert multiset(rest) == multiset(b[..k]) + multiset(b[k + 1..]);
        assert a == [a[0]] + a[1..];
        assert multiset(a) == multiset{a[0]} + multiset(a[1..]);
        MultisetCancel(a[0], multiset(rest), multiset(a[1..]));
      }
      CountCmpPermutation(a[1..], rest, m, below);
      CountCmpAppend(b[..k] + [b[k]], b[k + 1..], m, below);
      CountCmpAppend(b[..k], [b[k]], m, below);
      CountCmpAppend(b[..k], b[k + 1..], m, below);
      assert [b[k]][1..] == [];
    }
  }

  /** At most all elements are counted. */
  lemma {:induction false} CountCmpBound(s: seq<real>, m: real, below: bool)
    ensures CountCmp(s, m, below) <= |s|
  {
    if s != [] {
      CountCmpBound(s[1..], m, below);
    }
  }

  /** Raising elements pointwise can only lower the number of elements at most m. */
  lemma {:induction false} CountBelowPointwise(a: seq<real>, b: seq<real>, m: real)
    requires |a| == |b| && forall i :: 0 <= i < |a| ==> a[i] <= b[i]
    ensures CountCmp(b, m, true) <= CountCmp(a, m, true)
  {
    if a != [] {
      CountBelowPointwise(a[1..], b[1..], m);
    }
  }

  /** When every element passes the comparison, all of them are counted. */
  lemma {:induction false} CountCmpAll(s: seq<real>, m: real, below: bool)
    requires forall i :: 0 <= i < |s| ==> (if below then s[i] <= m else s[i] >= m)
    ensures CountCmp(s, m, below) == |s|
  {
    if s != [] {
      CountCmpAll(s[1..], m, below);
    }
  }

  /**
   * In a sorted sequence the element at index h has at least h + 1 elements at
   * most it and at least |s| - h elements at least it.
   */
  lemma {:induction false} OrderStatistic(s: seq<real>, h: nat)
    requires SortedBy(s, Identity)
    requires h < |s|
    ensures CountCmp(s, s[h], true) >= h + 1
    ensures CountCmp(s, s[h], false) >= |s| - h
  {
    assert s == s[..h + 1] + s[h + 1..];
    assert s == s[..h] + s[h..];
    CountCmpAppend(s[..h + 1], s[h + 1..], s[h], true);
    CountCmpAll(s[..h + 1], s[h], true);
    CountCmpAppend(s[..h], s[h..], s[h], false);
    CountCmpAll(s[h..], s[h], false);
  }

  /**
   * In a sorted sequence with at least h + 1 elements at most m, the element at
   * index h is at most m.
   */
  lemma {:induction false} SortedRank(s: seq<real>, h: nat, m: real)
    requires SortedBy(s, Identity) && h < |s|
    requires CountCmp(s, m, true) >= h + 1
    ensures s[h] <= m
  {
    if s[h] > m {
      assert s == s[..h] + s[h..];
      CountCmpAppend(s[..h], s[h..], m, true);
      CountCmpBound(s[..h], m, true);
      CountAbove(s[h..], m);
    }
  }

  /** Elements all above m: none is counted at most m. */
  lemma {:induction false} CountAbove(s: seq<real>, m: real)
    requires forall i :: 0 <= i < |s| ==> s[i] > m
    ensures CountCmp(s, m, true) == 0
  {
    if s != [] {
      CountAbove(s[1..], m);
    }
  }
}
