/** Sequence operations shared by the bookmark code: `Array.prototype.filter`,
    the order-preserving subsequence relation, and `Array.prototype.sort`
    with a comparator, which is stable and is modelled here as insertion sort
    (both as a function and in place on an array). */
module Seqs {

  /** `s.filter(p)` */
  function Filter<T>(s: seq<T>, p: T -> bool): (r: seq<T>)
    ensures |r| <= |s|
    decreases |s|
  {
    if s == [] then []
    else Filter(s[..|s| - 1], p) + (if p(s[|s| - 1]) then [s[|s| - 1]] else [])
  }

  /** `s.filter((x) => !p(x))` */
  function Reject<T>(s: seq<T>, p: T -> bool): (r: seq<T>)
    ensures |r| <= |s|
    decreases |s|
  {
    if s == [] then []
    else Reject(s[..|s| - 1], p) + (if p(s[|s| - 1]) then [] else [s[|s| - 1]])
  }

  lemma {:induction false} FilterMember<T>(s: seq<T>, p: T -> bool, x: T)
    ensures x in Filter(s, p) <==> x in s && p(x)
    decreases |s|
  {
    if s != [] {
      var init := s[..|s| - 1];
      FilterMember(init, p, x);
      assert s == init + [s[|s| - 1]];
    }
  }

  lemma {:induction false} RejectMember<T>(s: seq<T>, p: T -> bool, x: T)
    ensures x in Reject(s, p) <==> x in s && !p(x)
    decreases |s|
  {
    if s != [] {
      var init := s[..|s| - 1];
      RejectMember(init, p, x);
      assert s == init + [s[|s| - 1]];
    }
  }

  /** `a` is an order-preserving subsequence of `b`. */
  predicate Subsequence<T(==)>(a: seq<T>, b: seq<T>)
    decreases |b|
  {
    if a == [] then true
    else if b == [] then false
    else if a[|a| - 1] == b[|b| - 1] then Subsequence(a[..|a| - 1], b[..|b| - 1])
    else Subsequence(a, b[..|b| - 1])
  }

  lemma {:induction false} FilterIsSubsequence<T>(s: seq<T>, p: T -> bool)
    ensures Subsequence(Filter(s, p), s)
    decreases |s|
  {
    if s != [] {
      var init, x := s[..|s| - 1], s[|s| - 1];
      FilterIsSubsequence(init, p);
      var f := Filter(init, p);
      if p(x) {
        assert Filter(s, p) == f + [x];
        assert (f + [x])[..|f|] == f;
      } else {
        assert Filter(s, p) == f;
        if f != [] {
          FilterMember(init, p, f[|f| - 1]);
          assert f[|f| - 1] != x;
        }
      }
    }
  }

  /** Every element of a subsequence is an element of the whole. */
  lemma {:induction false} SubsequenceMembers<T>(a: seq<T>, b: seq<T>)
    requires Subsequence(a, b)
    ensures forall x :: x in a ==> x in b
    decreases |b|
  {
    if a != [] && b != [] {
      var b' := b[..|b| - 1];
      assert b == b' + [b[|b| - 1]];
      if a[|a| - 1] == b[|b| - 1] {
        var a' := a[..|a| - 1];
        SubsequenceMembers(a', b');
        assert a == a' + [a[|a| - 1]];
      } else {
        SubsequenceMembers(a, b');
      }
    }
  }

  /** A subsequence of a sequence without repeats has none either. */
  lemma {:induction false} SubsequenceNoDup<T>(a: seq<T>, b: seq<T>)
    requires Subsequence(a, b) && NoDup(b)
    ensures NoDup(a)
    decreases |b|
  {
    if a != [] && b != [] {
      var b' := b[..|b| - 1];
      assert NoDup(b') by {
        forall i, j | 0 <= i < j < |b'| ensures b'[i] != b'[j] {
          assert b'[i] == b[i] && b'[j] == b[j];
        }
      }
      if a[|a| - 1] == b[|b| - 1] {
        var a' := a[..|a| - 1];
        SubsequenceNoDup(a', b');
        SubsequenceMembers(a', b');
        forall i, j | 0 <= i < j < |a| ensures a[i] != a[j] {
          if j < |a| - 1 {
            assert a[i] == a'[i] && a[j] == a'[j];
          } else {
            assert a[i] == a'[i] && a[i] in a';
            var k :| 0 <= k < |b'| && b'[k] == a[i];
            assert b[k] == a[i];
          }
        }
      } else {
        SubsequenceNoDup(a, b');
      }
    }
  }

  lemma {:induction false} FilterAppend<T>(a: seq<T>, b: seq<T>, p: T -> bool)
    ensures Filter(a + b, p) == Filter(a, p) + Filter(b, p)
    decreases |b|
  {
    if b == [] {
      assert a + b == a;
    } else {
      var b' := b[..|b| - 1];
      assert (a + b)[..|a + b| - 1] == a + b';
      assert (a + b)[|a + b| - 1] == b[|b| - 1];
      FilterAppend(a, b', p);
    }
  }

  lemma {:induction false} FilterAllKept<T>(s: seq<T>, p: T -> bool)
    requires forall i :: 0 <= i < |s| ==> p(s[i])
    ensures Filter(s, p) == s
    decreases |s|
  {
    if s != [] {
      var init := s[..|s| - 1];
      FilterAllKept(init, p);
      assert init + [s[|s| - 1]] == s;
    }
  }

  lemma {:induction false} FilterNoneKept<T>(s: seq<T>, p: T -> bool)
    requires forall i :: 0 <= i < |s| ==> !p(s[i])
    ensures Filter(s, p) == []
    decreases |s|
  {
    if s != [] {
      var init := s[..|s| - 1];
      FilterNoneKept(init, p);
    }
  }

  /** Filtering out one element that the predicate rejects, among elements
      it keeps. */
  lemma FilterDropsOne<T>(before: seq<T>, x: T, after: seq<T>, p: T -> bool)
    requires forall i :: 0 <= i < |before| ==> p(before[i])
    requires forall i :: 0 <= i < |after| ==> p(after[i])
    requires !p(x)
    ensures Filter(before + [x] + after, p) == before + after
  {
    FilterAllKept(before, p);
    FilterAllKept(after, p);
    var one: seq<T> := [x];
    assert one[..|one| - 1] == [];
    assert Filter(one, p) == [];
    FilterAppend(before, one, p);
    assert Filter(before + one, p) == before;
    FilterAppend(before + one, after, p);
  }

  /** Filtering twice is filtering once by the conjunction. */
  lemma {:induction false} FilterFilter<T>(s: seq<T>, p: T -> bool, q: T -> bool, pq: T -> bool)
    requires forall x :: pq(x) == (p(x) && q(x))
    ensures Filter(Filter(s, p), q) == Filter(s, pq)
    decreases |s|
  {
    if s != [] {
      var init := s[..|s| - 1];
      var x := s[|s| - 1];
      FilterFilter(init, p, q, pq);
      FilterAppend(Filter(init, p), if p(x) then [x] else [], q);
      assert Filter([x], q) == Filter([], q) + (if q(x) then [x] else []);
    }
  }

  /** Filter and its complement split a sequence into a permutation of it. */
  lemma {:induction false} FilterRejectPermutes<T>(s: seq<T>, p: T -> bool)
    ensures multiset(Filter(s, p)) + multiset(Reject(s, p)) == multiset(s)
    decreases |s|
  {
    if s != [] {
      var init, x := s[..|s| - 1], s[|s| - 1];
      FilterRejectPermutes(init, p);
      assert s == init + [x];
      assert multiset(s) == multiset(init) + multiset{x};
      if p(x) {
        assert Filter(s, p) == Filter(init, p) + [x];
        assert Reject(s, p) == Reject(init, p);
        assert multiset(Filter(s, p)) == multiset(Filter(init, p)) + multiset{x};
      } else {
        assert Filter(s, p) == Filter(init, p);
        assert Reject(s, p) == Reject(init, p) + [x];
        assert multiset(Reject(s, p)) == multiset(Reject(init, p)) + multiset{x};
      }
    }
  }

  /** No element occurs twice. */
  predicate NoDup<T(==)>(s: seq<T>) {
    forall i, j :: 0 <= i < j < |s| ==> s[i] != s[j]
  }

  lemma {:induction false} NoDupMultiplicity<T>(s: seq<T>, x: T)
    requires NoDup(s)
    ensures multiset(s)[x] <= 1
    decreases |s|
  {
    if s != [] {
      var init := s[..|s| - 1];
      NoDupMultiplicity(init, x);
      assert s == init + [s[|s| - 1]];
      if x == s[|s| - 1] {
        assert x !in init by {
          forall i | 0 <= i < |init| ensures init[i] != x {
            assert init[i] == s[i];
          }
        }
      }
    }
  }

  /** A permutation of a sequence without repeats has none either. */
  lemma NoDupPermutation<T>(a: seq<T>, b: seq<T>)
    requires NoDup(a) && multiset(a) == multiset(b)
    ensures NoDup(b)
  {
    forall i, j | 0 <= i < j < |b| ensures b[i] != b[j] {
      if b[i] == b[j] {
        var x := b[i];
        assert b == b[..j] + [x] + b[j + 1..];
        assert x in b[..j];
        assert multiset(b)[x] >= 2;
        NoDupMultiplicity(a, x);
        assert false;
      }
    }
  }

  /** The sum of `f` over a sequence. */
  function SumBy<T>(s: seq<T>, f: T -> int): int
    decreases |s|
  {
    if s == [] then 0 else SumBy(s[..|s| - 1], f) + f(s[|s| - 1])
  }

  lemma {:induction false} SumByAppend<T>(a: seq<T>, b: seq<T>, f: T -> int)
    ensures SumBy(a + b, f) == SumBy(a, f) + SumBy(b, f)
    decreases |b|
  {
    if b == [] {
      assert a + b == a;
    } else {
      var b' := b[..|b| - 1];
      assert (a + b)[..|a + b| - 1] == a + b';
      SumByAppend(a, b', f);
    }
  }

  /** A sum does not depend on the order of its terms. */
  lemma {:induction false} SumByPermutation<T>(a: seq<T>, b: seq<T>, f: T -> int)
    requires multiset(a) == multiset(b)
    ensures SumBy(a, f) == SumBy(b, f)
    decreases |a|
  {
    if a == [] {
      assert |b| == |multiset(b)| == 0;
    } else {
      var init, x := a[..|a| - 1], a[|a| - 1];
      assert a == init + [x];
      assert x in multiset(b);
      var j :| 0 <= j < |b| && b[j] == x;
      MultisetRemove(b, j);
      assert multiset(init) == multiset(a) - multiset{x};
      SumByPermutation(init, b[..j] + b[j + 1..], f);
      SumByRemove(b, j, f);
    }
  }

  lemma MultisetRemove<T>(b: seq<T>, j: int)
    requires 0 <= j < |b|
    ensures multiset(b[..j] + b[j + 1..]) == multiset(b) - multiset{b[j]}
  {
    assert b == b[..j] + [b[j]] + b[j + 1..];
  }

  /** Taking one element out of a sequence takes its term out of the sum. */
  lemma SumByRemove<T>(b: seq<T>, j: int, f: T -> int)
    requires 0 <= j < |b|
    ensures SumBy(b, f) == SumBy(b[..j] + b[j + 1..], f) + f(b[j])
  {
    var upto, back := b[..j + 1], b[j + 1..];
    assert upto + back == b;
    SumByAppend(upto, back, f);
    assert upto[..j] == b[..j];
    assert SumBy(upto, f) == SumBy(b[..j], f) + f(b[j]);
    SumByAppend(b[..j], back, f);
  }

  /** Sums of two functions that agree on every element are equal. */
  lemma {:induction false} SumByAgree<T>(s: seq<T>, f: T -> int, g: T -> int)
    requires forall i :: 0 <= i < |s| ==> f(s[i]) == g(s[i])
    ensures SumBy(s, f) == SumBy(s, g)
    decreases |s|
  {
    if s != [] {
      SumByAgree(s[..|s| - 1], f, g);
    }
  }

  /** Raising `f` by one at a single element that occurs exactly once
      raises the sum by one. */
  lemma {:induction false} SumByBump<T>(s: seq<T>, f: T -> int, g: T -> int, x: T)
    requires NoDup(s) && x in s
    requires forall y :: g(y) == f(y) + (if y == x then 1 else 0)
    ensures SumBy(s, g) == SumBy(s, f) + 1
    decreases |s|
  {
    var init, last := s[..|s| - 1], s[|s| - 1];
    assert s == init + [last];
    assert NoDup(init) by {
      forall i, j | 0 <= i < j < |init| ensures init[i] != init[j] {
        assert init[i] == s[i] && init[j] == s[j];
      }
    }
    if last == x {
      forall i | 0 <= i < |init| ensures f(init[i]) == g(init[i]) {
        assert init[i] == s[i];
      }
      SumByAgree(init, f, g);
    } else {
      SumByBump(init, f, g, x);
    }
  }

  // ---------------------------------------------------------------------
  // Array.prototype.sort(cmp): a stable sort. An element is moved in front
  // of an earlier one only when the comparator says the earlier one is
  // greater (cmp(earlier, later) > 0).

  /** Insert `x` after the last element of `r` that does not compare
      greater than it. */
  function Insert<T>(x: T, r: seq<T>, cmp: (T, T) -> int): (o: seq<T>)
    ensures |o| == |r| + 1
    decreases |r|
  {
    if r == [] || cmp(r[|r| - 1], x) <= 0 then r + [x]
    else Insert(x, r[..|r| - 1], cmp) + [r[|r| - 1]]
  }

  function SortBy<T>(s: seq<T>, cmp: (T, T) -> int): (o: seq<T>)
    ensures |o| == |s|
    decreases |s|
  {
    if s == [] then []
    else Insert(s[|s| - 1], SortBy(s[..|s| - 1], cmp), cmp)
  }

  lemma {:induction false} InsertPermutes<T>(x: T, r: seq<T>, cmp: (T, T) -> int)
    ensures multiset(Insert(x, r, cmp)) == multiset(r) + multiset{x}
    decreases |r|
  {
    if r != [] && cmp(r[|r| - 1], x) > 0 {
      var init := r[..|r| - 1];
      InsertPermutes(x, init, cmp);
      assert r == init + [r[|r| - 1]];
    }
  }

  lemma {:induction false} InsertMember<T>(x: T, r: seq<T>, cmp: (T, T) -> int, y: T)
    ensures y in Insert(x, r, cmp) <==> y == x || y in r
  {
    InsertPermutes(x, r, cmp);
    assert y in Insert(x, r, cmp) <==> y in multiset(Insert(x, r, cmp));
  }

  /** The sort returns a permutation of its input. */
  lemma {:induction false} SortByPermutes<T>(s: seq<T>, cmp: (T, T) -> int)
    ensures multiset(SortBy(s, cmp)) == multiset(s)
    decreases |s|
  {
    if s != [] {
      var init := s[..|s| - 1];
      SortByPermutes(init, cmp);
      InsertPermutes(s[|s| - 1], SortBy(init, cmp), cmp);
      assert s == init + [s[|s| - 1]];
    }
  }

  /** The comparator describes a total preorder: its sign flips when the
      arguments are swapped, and "not greater" is transitive. */
  ghost predicate ValidCmp<T(!new)>(cmp: (T, T) -> int) {
    && (forall a, b :: cmp(a, b) > 0 ==> cmp(b, a) < 0)
    && (forall a, b, c :: cmp(a, b) <= 0 && cmp(b, c) <= 0 ==> cmp(a, c) <= 0)
  }

  ghost predicate Sorted<T>(r: seq<T>, cmp: (T, T) -> int) {
    forall i, j :: 0 <= i < j < |r| ==> cmp(r[i], r[j]) <= 0
  }

  lemma {:induction false} InsertSorted<T(!new)>(x: T, r: seq<T>, cmp: (T, T) -> int)
    requires ValidCmp(cmp) && Sorted(r, cmp)
    ensures Sorted(Insert(x, r, cmp), cmp)
    decreases |r|
  {
    if r == [] {
    } else if cmp(r[|r| - 1], x) <= 0 {
      var o := r + [x];
      forall i, j | 0 <= i < j < |o| ensures cmp(o[i], o[j]) <= 0 {
        if j == |r| && i < |r| - 1 {
          assert cmp(r[i], r[|r| - 1]) <= 0;
        }
      }
    } else {
      var init, last := r[..|r| - 1], r[|r| - 1];
      assert Sorted(init, cmp) by {
        forall i, j | 0 <= i < j < |init| ensures cmp(init[i], init[j]) <= 0 {
          assert init[i] == r[i] && init[j] == r[j];
        }
      }
      InsertSorted(x, init, cmp);
      var o := Insert(x, init, cmp);
      forall y | y in o ensures cmp(y, last) <= 0 {
        InsertMember(x, init, cmp, y);
        if y != x {
          var k :| 0 <= k < |init| && init[k] == y;
          assert r[k] == y;
        }
      }
      var o' := o + [last];
      forall i, j | 0 <= i < j < |o'| ensures cmp(o'[i], o'[j]) <= 0 {
        if j == |o| {
          assert o'[i] == o[i];
          assert o[i] in o;
        } else {
          assert o'[i] == o[i] && o'[j] == o[j];
        }
      }
    }
  }

  lemma {:induction false} SortBySorted<T(!new)>(s: seq<T>, cmp: (T, T) -> int)
    requires ValidCmp(cmp)
    ensures Sorted(SortBy(s, cmp), cmp)
    decreases |s|
  {
    if s != [] {
      SortBySorted(s[..|s| - 1], cmp);
      InsertSorted(s[|s| - 1], SortBy(s[..|s| - 1], cmp), cmp);
    }
  }

  /** Filtering keeps a sorted sequence sorted. */
  lemma {:induction false} FilterSorted<T>(s: seq<T>, p: T -> bool, cmp: (T, T) -> int)
    requires Sorted(s, cmp)
    ensures Sorted(Filter(s, p), cmp)
    decreases |s|
  {
    if s != [] {
      var init, x := s[..|s| - 1], s[|s| - 1];
      assert Sorted(init, cmp) by {
        forall i, j | 0 <= i < j < |init| ensures cmp(init[i], init[j]) <= 0 {
          assert init[i] == s[i] && init[j] == s[j];
        }
      }
      FilterSorted(init, p, cmp);
      var f := Filter(init, p);
      if p(x) {
        forall i | 0 <= i < |f| ensures cmp(f[i], x) <= 0 {
          FilterMember(init, p, f[i]);
          var k :| 0 <= k < |init| && init[k] == f[i];
          assert s[k] == f[i];
        }
        assert Filter(s, p) == f + [x];
      }
    }
  }

  lemma RejectSorted<T>(s: seq<T>, p: T -> bool, cmp: (T, T) -> int)
    requires Sorted(s, cmp)
    ensures Sorted(Reject(s, p), cmp)
  {
    FilterSorted(s, x => !p(x), cmp);
    RejectIsFilter(s, p);
  }

  lemma {:induction false} RejectIsFilter<T>(s: seq<T>, p: T -> bool)
    ensures Reject(s, p) == Filter(s, x => !p(x))
    decreases |s|
  {
    if s != [] {
      RejectIsFilter(s[..|s| - 1], p);
    }
  }

  /** Where `Insert` puts `x`: after index `j - 1` when everything from `j`
      on compares greater than `x` and the element before `j` does not. */
  lemma {:induction false} InsertSplit<T>(x: T, r: seq<T>, cmp: (T, T) -> int, j: nat)
    requires j <= |r|
    requires j == 0 || cmp(r[j - 1], x) <= 0
    requires forall k :: j <= k < |r| ==> cmp(r[k], x) > 0
    ensures Insert(x, r, cmp) == r[..j] + [x] + r[j..]
    decreases |r|
  {
    if j == |r| {
      assert Insert(x, r, cmp) == r + [x];
      assert r[..j] == r && r[j..] == [];
    } else {
      var init, last := r[..|r| - 1], r[|r| - 1];
      assert cmp(last, x) > 0;
      assert Insert(x, r, cmp) == Insert(x, init, cmp) + [last];
      forall k | j <= k < |init| ensures cmp(init[k], x) > 0 {
        assert init[k] == r[k];
      }
      if j > 0 {
        assert init[j - 1] == r[j - 1];
      }
      InsertSplit(x, init, cmp, j);
      assert init[..j] == r[..j];
      assert r[j..] == init[j..] + [last];
    }
  }

  /** Sorting by a two-valued key (true first) is a stable partition. */
  lemma {:induction false} KeySortPartitions<T>(s: seq<T>, key: T -> bool, cmp: (T, T) -> int)
    requires forall a, b :: cmp(a, b) == (if key(b) then 1 else 0) - (if key(a) then 1 else 0)
    ensures SortBy(s, cmp) == Filter(s, key) + Reject(s, key)
    decreases |s|
  {
    if s != [] {
      var init, x := s[..|s| - 1], s[|s| - 1];
      KeySortPartitions(init, key, cmp);
      if key(x) {
        KeyInsertFront(x, init, key, cmp);
      } else {
        KeyInsertBack(x, init, key, cmp);
      }
    }
  }

  /** A key-true element goes after the key-true run and before the rest. */
  lemma KeyInsertFront<T>(x: T, init: seq<T>, key: T -> bool, cmp: (T, T) -> int)
    requires forall a, b :: cmp(a, b) == (if key(b) then 1 else 0) - (if key(a) then 1 else 0)
    requires key(x)
    ensures Insert(x, Filter(init, key) + Reject(init, key), cmp) == (Filter(init, key) + [x]) + Reject(init, key)
  {
    var front, back := Filter(init, key), Reject(init, key);
    var r := front + back;
    forall k | |front| <= k < |r| ensures cmp(r[k], x) > 0 {
      assert r[k] == back[k - |front|];
      RejectMember(init, key, r[k]);
    }
    if |front| > 0 {
      assert r[|front| - 1] == front[|front| - 1];
      FilterMember(init, key, r[|front| - 1]);
    }
    InsertSplit(x, r, cmp, |front|);
    assert r[..|front|] == front && r[|front|..] == back;
  }

  /** A key-false element goes at the end. */
  lemma KeyInsertBack<T>(x: T, init: seq<T>, key: T -> bool, cmp: (T, T) -> int)
    requires forall a, b :: cmp(a, b) == (if key(b) then 1 else 0) - (if key(a) then 1 else 0)
    requires !key(x)
    ensures Insert(x, Filter(init, key) + Reject(init, key), cmp) == Filter(init, key) + (Reject(init, key) + [x])
  {
    var r := Filter(init, key) + Reject(init, key);
    if r != [] {
      var last := r[|r| - 1];
      KeyCmpAt(last, x, key, cmp);
    }
    assert Insert(x, r, cmp) == r + [x];
  }

  lemma KeyCmpAt<T>(a: T, b: T, key: T -> bool, cmp: (T, T) -> int)
    requires forall a, b :: cmp(a, b) == (if key(b) then 1 else 0) - (if key(a) then 1 else 0)
    ensures cmp(a, b) == (if key(b) then 1 else 0) - (if key(a) then 1 else 0)
  {
  }

  /** One step of insertion sort: `a[i]` moves left past every element of
      the sorted prefix `a[..i]` that compares greater than it. */
  method InsertStep<T>(a: array<T>, i: nat, cmp: (T, T) -> int)
    requires i < a.Length
    modifies a
    ensures a[..i + 1] == Insert(old(a[i]), old(a[..i]), cmp)
    ensures a[i + 1..] == old(a[i + 1..])
  {
    var x := a[i];
    ghost var r := a[..i];
    var j := i;
    while j > 0 && cmp(a[j - 1], x) > 0
      invariant 0 <= j <= i
      invariant forall k :: 0 <= k < j ==> a[k] == r[k]
      invariant forall k :: j < k <= i ==> a[k] == r[k - 1]
      invariant forall k :: i < k < a.Length ==> a[k] == old(a[k])
      invariant forall k :: j <= k < i ==> cmp(r[k], x) > 0
    {
      a[j] := a[j - 1];
      j := j - 1;
    }
    a[j] := x;
    InsertSplit(x, r, cmp, j);
    ghost var expected := r[..j] + [x] + r[j..];
    forall k | 0 <= k <= i ensures a[k] == expected[k] {
      if k > j {
        assert expected[k] == r[k - 1];
      }
    }
    assert a[..i + 1] == expected;
  }

  /** `Array.prototype.sort(cmp)` in place: insertion sort, which is stable. */
  method SortInPlace<T>(a: array<T>, cmp: (T, T) -> int)
    modifies a
    ensures a[..] == SortBy(old(a[..]), cmp)
  {
    ghost var s := a[..];
    var i := 0;
    while i < a.Length
      invariant 0 <= i <= a.Length
      invariant a[..i] == SortBy(s[..i], cmp)
      invariant a[i..] == s[i..]
    {
      InsertStep(a, i, cmp);
      assert s[..i + 1][..i] == s[..i];
      i := i + 1;
    }
    assert a[..] == a[..a.Length];
    assert s[..a.Length] == s;
  }
}
