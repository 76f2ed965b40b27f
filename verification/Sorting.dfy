/** Sorting by a strict order: Go's `sort.Slice` on a list in which different elements are
    comparable, for which the result does not depend on the algorithm. */
module Sorting {

  type Order<!T> = (T, T) -> bool

  ghost predicate StrictOrder<T(!new)>(before: Order<T>) {
    && (forall a: T, b: T :: before(a, b) ==> !before(b, a))
    && (forall a: T, b: T, c: T :: before(a, b) && before(b, c) ==> before(a, c))
  }

  predicate SortedBy<T(==)>(before: Order<T>, s: seq<T>) {
    forall i, j :: 0 <= i < j < |s| ==> before(s[i], s[j]) || s[i] == s[j]
  }

  /** Any two different elements are ordered one way or the other. */
  predicate Comparable<T(==)>(before: Order<T>, s: seq<T>) {
    forall i, j :: 0 <= i < j < |s| ==> before(s[i], s[j]) || before(s[j], s[i]) || s[i] == s[j]
  }

  lemma HeadAndTail<T>(s: seq<T>)
    requires s != []
    ensures multiset(s) == multiset(s[1..]) + multiset{s[0]}
  {
    assert s == [s[0]] + s[1..];
  }

  lemma MiddleOut<T>(s: seq<T>, k: nat)
    requires k < |s|
    ensures multiset(s) == multiset(s[..k] + s[k + 1..]) + multiset{s[k]}
  {
    assert s == s[..k] + [s[k]] + s[k + 1..];
  }

  lemma LastOut<T>(s: seq<T>)
    requires s != []
    ensures multiset(s) == multiset(s[..|s| - 1]) + multiset{s[|s| - 1]}
  {
    assert s == s[..|s| - 1] + [s[|s| - 1]];
  }

  lemma Cancel<T>(a: multiset<T>, b: multiset<T>, v: T)
    requires a + multiset{v} == b + multiset{v}
    ensures a == b
  {
    assert a == a + multiset{v} - multiset{v};
  }

  /** Permutations that lose the same element stay permutations. */
  lemma WithoutLast<T>(a: seq<T>, b: seq<T>, k: nat)
    requires multiset(a) == multiset(b) && a != [] && k < |b| && b[k] == a[|a| - 1]
    ensures multiset(a[..|a| - 1]) == multiset(b[..k] + b[k + 1..])
  {
    var n := |a| - 1;
    var rest := b[..k] + b[k + 1..];
    MiddleOut(b, k);
    LastOut(a);
    Cancel(multiset(a[..n]), multiset(rest), a[n]);
  }

  /** A sorted list is determined by its elements. */
  lemma {:induction false} SortedUniquely<T(!new)>(before: Order<T>, a: seq<T>, b: seq<T>)
    requires StrictOrder(before) && SortedBy(before, a) && SortedBy(before, b) && multiset(a) == multiset(b)
    ensures a == b
  {
    hide StrictOrder, SortedBy;
    assert |multiset(a)| == |a| && |multiset(b)| == |b|;
    if a != [] {
      SameFirst(before, a, b);
      SortedTail(before, a);
      SortedTail(before, b);
      SameTails(a, b);
      SortedUniquely(before, a[1..], b[1..]);
      assert a == [a[0]] + a[1..] && b == [b[0]] + b[1..];
    }
  }

  // Permutations with the same first element have tails that are permutations.
  lemma SameTails<T>(a: seq<T>, b: seq<T>)
    requires a != [] && b != [] && a[0] == b[0] && multiset(a) == multiset(b)
    ensures multiset(a[1..]) == multiset(b[1..])
  {
    HeadAndTail(a);
    HeadAndTail(b);
    Cancel(multiset(a[1..]), multiset(b[1..]), a[0]);
  }

  lemma SortedTail<T>(before: Order<T>, s: seq<T>)
    requires SortedBy(before, s) && s != []
    ensures SortedBy(before, s[1..])
  {
  }

  lemma SameFirst<T(!new)>(before: Order<T>, a: seq<T>, b: seq<T>)
    requires StrictOrder(before) && SortedBy(before, a) && SortedBy(before, b) && multiset(a) == multiset(b)
    requires a != [] && b != []
    ensures a[0] == b[0]
  {
    assert a[0] in multiset(b) && b[0] in multiset(a);
    var i :| 0 <= i < |b| && b[i] == a[0];
    var j :| 0 <= j < |a| && a[j] == b[0];
    assert i > 0 ==> before(b[0], b[i]) || b[0] == b[i];
    assert j > 0 ==> before(a[0], a[j]) || a[0] == a[j];
  }

  method SortBy<T(!new)>(before: Order<T>, s: seq<T>) returns (sorted: seq<T>)
    requires StrictOrder(before) && Comparable(before, s)
    ensures SortedBy(before, sorted) && multiset(sorted) == multiset(s)
  {
    sorted := [];
    for n := 0 to |s|
      invariant SortedBy(before, sorted) && multiset(sorted) == multiset(s[..n])
    {
      var x := s[n];
      assert s[..n + 1] == s[..n] + [x];
      var k := 0;
      while k < |sorted| && before(sorted[k], x)
        invariant 0 <= k <= |sorted|
        invariant forall i :: 0 <= i < k ==> before(sorted[i], x)
      {
        k := k + 1;
      }
      ComparableToRest(before, s, n, sorted);
      Inserted(before, sorted, x, k);
      sorted := sorted[..k] + [x] + sorted[k..];
    }
    assert s[..|s|] == s;
  }

  lemma ComparableToRest<T>(before: Order<T>, s: seq<T>, n: nat, sorted: seq<T>)
    requires n < |s| && Comparable(before, s) && multiset(sorted) == multiset(s[..n])
    ensures forall i :: 0 <= i < |sorted| ==> before(sorted[i], s[n]) || before(s[n], sorted[i]) || sorted[i] == s[n]
  {
    forall i | 0 <= i < |sorted| ensures before(sorted[i], s[n]) || before(s[n], sorted[i]) || sorted[i] == s[n] {
      assert sorted[i] in multiset(s[..n]);
      var k :| 0 <= k < n && s[..n][k] == sorted[i];
    }
  }

  lemma Inserted<T(!new)>(before: Order<T>, sorted: seq<T>, x: T, k: nat)
    requires StrictOrder(before) && SortedBy(before, sorted) && k <= |sorted|
    requires forall i :: 0 <= i < k ==> before(sorted[i], x)
    requires k < |sorted| ==> before(x, sorted[k]) || x == sorted[k]
    ensures SortedBy(before, sorted[..k] + [x] + sorted[k..])
    ensures multiset(sorted[..k] + [x] + sorted[k..]) == multiset(sorted) + multiset{x}
  {
    InsertedElements(sorted, x, k);
    hide StrictOrder;
    forall i | k <= i < |sorted| ensures before(x, sorted[i]) || x == sorted[i] {
      FollowsAll(before, sorted, x, k, i);
    }
    var r := sorted[..k] + [x] + sorted[k..];
    forall i, j | 0 <= i < j < |r| ensures before(r[i], r[j]) || r[i] == r[j] {
      assert r[i] == if i < k then sorted[i] else if i == k then x else sorted[i - 1];
      assert r[j] == if j < k then sorted[j] else if j == k then x else sorted[j - 1];
    }
  }

  // What stands behind an element that `x` precedes is preceded by `x` too.
  lemma FollowsAll<T(!new)>(before: Order<T>, sorted: seq<T>, x: T, k: nat, i: nat)
    requires StrictOrder(before) && SortedBy(before, sorted) && k <= i < |sorted|
    requires before(x, sorted[k]) || x == sorted[k]
    ensures before(x, sorted[i]) || x == sorted[i]
  {
    assert i > k ==> before(sorted[k], sorted[i]) || sorted[k] == sorted[i];
  }

  lemma InsertedElements<T>(sorted: seq<T>, x: T, k: nat)
    requires k <= |sorted|
    ensures multiset(sorted[..k] + [x] + sorted[k..]) == multiset(sorted) + multiset{x}
  {
    assert sorted == sorted[..k] + sorted[k..];
  }

  predicate Unrepeated<T(==)>(s: seq<T>) {
    forall i, j :: 0 <= i < j < |s| ==> s[i] != s[j]
  }

  /** A permutation of a list without repetition has none. */
  lemma {:induction false} PermutedApart<T>(a: seq<T>, b: seq<T>)
    requires multiset(a) == multiset(b) && Unrepeated(a)
    ensures Unrepeated(b)
  {
    forall i, j | 0 <= i < j < |b| ensures b[i] != b[j] {
      if b[i] == b[j] {
        assert b == b[..i] + [b[i]] + b[i + 1..j] + [b[j]] + b[j + 1..];
        assert multiset(b)[b[i]] >= 2;
        OnceOnly(a, b[i]);
      }
    }
  }

  lemma {:induction false} OnceOnly<T>(s: seq<T>, v: T)
    requires Unrepeated(s)
    ensures multiset(s)[v] <= 1
  {
    if s != [] {
      HeadAndTail(s);
      OnceOnly(s[1..], v);
      if s[0] == v {
        assert v !in s[1..];
        assert v !in multiset(s[1..]);
      }
    }
  }
}
