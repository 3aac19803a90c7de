/** Helpers shared by several of the modelled programs: Python list
    indexing, sums, a stable insertion sort that stands in for the C
    library's qsort, and in-place reversal of an array prefix. */
module Util {

  datatype Option<T> = None | Some(value: T)

  /** Whether i indexes a Python list of length n: from -n to n - 1. */
  predicate PyIndex(i: int, n: nat)
  {
    -(n as int) <= i < n
  }

  /** The position a valid Python index names: a negative one counts from the end. */
  function PyPosition(i: int, n: nat): (p: nat)
    requires PyIndex(i, n)
    ensures p < n
    ensures i >= 0 ==> p == i
    ensures i < 0 ==> p == i + n
  {
    if i < 0 then i + n else i
  }

  /** Sum of integers, peeled from the back so that prefix sums extend by one element. */
  function Sum(s: seq<int>): int
  {
    if s == [] then 0 else Sum(s[..|s| - 1]) + s[|s| - 1]
  }

  /** Sum of reals, peeled from the back. */
  function SumR(s: seq<real>): real
  {
    if s == [] then 0.0 else SumR(s[..|s| - 1]) + s[|s| - 1]
  }

  /** A part of a positive total divides it into a share in [0, 1]. */
  lemma ShareBounds(a: real, total: real)
    requires 0.0 <= a <= total && total > 0.0
    ensures 0.0 <= a / total <= 1.0
    ensures a == total ==> a / total == 1.0
  {
  }

  /** Dividing by a positive total keeps the order. */
  lemma ShareOrder(a: real, b: real, total: real)
    requires a <= b && total > 0.0
    ensures a / total <= b / total
  {
  }

  lemma SumAppend(s: seq<int>, x: int)
    ensures Sum(s + [x]) == Sum(s) + x
  {
    assert (s + [x])[..|s|] == s;
  }

  lemma SumRAppend(s: seq<real>, x: real)
    ensures SumR(s + [x]) == SumR(s) + x
  {
    assert (s + [x])[..|s|] == s;
  }

  lemma {:induction false} SumConcat(s: seq<int>, t: seq<int>)
    ensures Sum(s + t) == Sum(s) + Sum(t)
    decreases |t|
  {
    if t == [] {
      assert s + t == s;
    } else {
      var t' := t[..|t| - 1];
      assert s + t == (s + t') + [t[|t| - 1]];
      SumConcat(s, t');
      SumAppend(s + t', t[|t| - 1]);
    }
  }

  lemma {:induction false} SumFront(s: seq<int>)
    requires s != []
    ensures Sum(s) == s[0] + Sum(s[1..])
  {
    SumConcat([s[0]], s[1..]);
    assert [s[0]] + s[1..] == s;
    assert Sum([s[0]]) == Sum([]) + s[0];
  }

  lemma {:induction false} SumNonNegative(s: seq<int>)
    requires forall k :: 0 <= k < |s| ==> s[k] >= 0
    ensures Sum(s) >= 0
  {
    if s != [] {
      SumNonNegative(s[..|s| - 1]);
    }
  }

  /** With non-negative entries a prefix sums to at most the whole. */
  lemma SumPrefixBound(s: seq<int>, k: nat)
    requires k <= |s| && forall i :: 0 <= i < |s| ==> s[i] >= 0
    ensures Sum(s[..k]) <= Sum(s)
  {
    assert s == s[..k] + s[k..];
    SumConcat(s[..k], s[k..]);
    SumNonNegative(s[k..]);
  }

  /** A sum over a permutation is the same sum. */
  lemma {:induction false} SumPermutation(s: seq<int>, t: seq<int>)
    requires multiset(s) == multiset(t)
    ensures Sum(s) == Sum(t)
    decreases |s|
  {
    if s == [] {
      assert |t| == |multiset(t)| == 0;
    } else {
      var x := s[|s| - 1];
      assert x in multiset(t);
      var k :| 0 <= k < |t| && t[k] == x;
      var t' := t[..k] + t[k + 1..];
      assert t == t[..k] + [x] + t[k + 1..];
      assert multiset(t) == multiset(t[..k]) + multiset{x} + multiset(t[k + 1..]);
      assert multiset(t') == multiset(t[..k]) + multiset(t[k + 1..]);
      assert s == s[..|s| - 1] + [x];
      assert multiset(s) == multiset(s[..|s| - 1]) + multiset{x};
      assert multiset(s[..|s| - 1]) == multiset(s) - multiset{x};
      assert multiset(t') == multiset(t) - multiset{x};
      SumPermutation(s[..|s| - 1], t');
      SumConcat(t[..k] + [x], t[k + 1..]);
      SumConcat(t[..k], [x]);
      SumConcat(t[..k], t[k + 1..]);
      assert Sum([x]) == Sum([]) + x;
    }
  }

  /** A comparison used for sorting is total and transitive (what qsort needs of its comparator). */
  ghost predicate TotalPreorder<T(!new)>(le: (T, T) -> bool)
  {
    && (forall a, b :: le(a, b) || le(b, a))
    && (forall a, b, c :: le(a, b) && le(b, c) ==> le(a, c))
  }

  predicate SortedBy<T>(s: seq<T>, le: (T, T) -> bool)
  {
    forall i, j :: 0 <= i < j < |s| ==> le(s[i], s[j])
  }

  function Insert<T>(x: T, s: seq<T>, le: (T, T) -> bool): (r: seq<T>)
    ensures multiset(r) == multiset(s) + multiset{x}
    ensures |r| == |s| + 1
  {
    if s == [] then [x]
    else if le(x, s[0]) then [x] + s
    else
      assert s == [s[0]] + s[1..];
      [s[0]] + Insert(x, s[1..], le)
  }

  /** The sorted order the model uses wherever the source calls qsort. */
  function InsertionSort<T>(s: seq<T>, le: (T, T) -> bool): (r: seq<T>)
    ensures multiset(r) == multiset(s)
    ensures |r| == |s|
  {
    if s == [] then []
    else
      assert s == [s[0]] + s[1..];
      Insert(s[0], InsertionSort(s[1..], le), le)
  }

  lemma {:induction false} InsertSorted<T(!new)>(x: T, s: seq<T>, le: (T, T) -> bool)
    requires TotalPreorder(le)
    requires SortedBy(s, le)
    ensures SortedBy(Insert(x, s, le), le)
  {
    if s != [] && !le(x, s[0]) {
      InsertSorted(x, s[1..], le);
      var r := Insert(x, s, le);
      var tail := Insert(x, s[1..], le);
      assert r == [s[0]] + tail;
      forall j | 0 < j < |r| ensures le(s[0], r[j]) {
        assert r[j] in multiset(tail);
        assert r[j] in multiset(s[1..]) + multiset{x};
        if r[j] == x {
        } else {
          assert r[j] in multiset(s[1..]);
          var k :| 0 <= k < |s[1..]| && s[1..][k] == r[j];
          assert s[k + 1] == r[j];
        }
      }
    }
  }

  lemma {:induction false} InsertionSortSorted<T(!new)>(s: seq<T>, le: (T, T) -> bool)
    requires TotalPreorder(le)
    ensures SortedBy(InsertionSort(s, le), le)
  {
    if s != [] {
      InsertionSortSorted(s[1..], le);
      InsertSorted(s[0], InsertionSort(s[1..], le), le);
    }
  }

  /** Sorts a[..n] in place (the role qsort plays in the C sources); a[n..] is untouched. */
  method SortPrefix<T>(a: array<T>, n: nat, le: (T, T) -> bool)
    requires n <= a.Length
    modifies a
    ensures a[..n] == InsertionSort(old(a[..n]), le)
    ensures a[n..] == old(a[n..])
  {
    var sorted := InsertionSort(a[..n], le);
    CopyPrefix(a, n, sorted);
  }

  /** Overwrites a[..n] with s, element by element. */
  method CopyPrefix<T>(a: array<T>, n: nat, s: seq<T>)
    requires n <= a.Length && |s| == n
    modifies a
    ensures a[..n] == s
    ensures a[n..] == old(a[n..])
  {
    var i := 0;
    while i < n
      invariant 0 <= i <= n
      invariant forall k :: 0 <= k < i ==> a[k] == s[k]
      invariant forall k :: i <= k < a.Length ==> a[k] == old(a[k])
    {
      a[i] := s[i];
      i := i + 1;
    }
    assert a[..n] == s;
  }

  function Reversed<T>(s: seq<T>): (r: seq<T>)
  {
    if s == [] then [] else Reversed(s[1..]) + [s[0]]
  }

  lemma {:induction false} ReversedAt<T>(s: seq<T>, k: nat)
    requires k < |s|
    ensures |Reversed(s)| == |s| && Reversed(s)[k] == s[|s| - 1 - k]
  {
    ReversedLength(s);
    if |s| > 1 {
      ReversedLength(s[1..]);
      if k < |s| - 1 {
        ReversedAt(s[1..], k);
      }
    }
  }

  lemma {:induction false} ReversedLength<T>(s: seq<T>)
    ensures |Reversed(s)| == |s|
  {
    if s != [] {
      ReversedLength(s[1..]);
    }
  }

  /** Reverses a[..n] in place by swapping from both ends (as the polygon programs do). */
  method ReversePrefix<T>(a: array<T>, n: nat)
    requires n <= a.Length
    modifies a
    ensures a[..n] == Reversed(old(a[..n]))
    ensures a[n..] == old(a[n..])
  {
    var l, r := 0, n - 1;
    while l < r
      invariant 0 <= l <= n
      invariant r == n - 1 - l
      invariant l <= r + 1 || n == 0
      invariant forall k :: 0 <= k < l ==> a[k] == old(a[n - 1 - k]) && a[n - 1 - k] == old(a[k])
      invariant forall k :: l <= k < n - l ==> a[k] == old(a[k])
      invariant a[n..] == old(a[n..])
    {
      a[l], a[r] := a[r], a[l];
      l, r := l + 1, r - 1;
    }
    ghost var was := old(a[..n]);
    ReversedLength(was);
    forall k | 0 <= k < n ensures a[..n][k] == Reversed(was)[k] {
      ReversedAt(was, k);
    }
  }

  /** No element occurs twice. */
  predicate Distinct<T(==)>(s: seq<T>)
  {
    forall i, j :: 0 <= i < j < |s| ==> s[i] != s[j]
  }

  lemma {:induction false} DistinctCount<T>(s: seq<T>, x: T)
    requires Distinct(s)
    ensures multiset(s)[x] <= 1
  {
    if s != [] {
      var rest := s[1..];
      assert s == [s[0]] + rest;
      assert Distinct(rest) by {
        forall i, j | 0 <= i < j < |rest| ensures rest[i] != rest[j] {
          assert rest[i] == s[i + 1] && rest[j] == s[j + 1];
        }
      }
      DistinctCount(rest, x);
    }
  }

  lemma RepeatCount<T>(t: seq<T>, i: nat, j: nat)
    requires i < j < |t| && t[i] == t[j]
    ensures multiset(t)[t[i]] >= 2
  {
    assert t == t[..j] + t[j..];
    assert t[i] in t[..j];
    assert t[j..][0] == t[j];
    assert t[j] in t[j..];
  }

  /** A permutation of a sequence without repeats has no repeats. */
  lemma DistinctPermutation<T>(s: seq<T>, t: seq<T>)
    requires multiset(s) == multiset(t) && Distinct(s)
    ensures Distinct(t)
  {
    forall i, j | 0 <= i < j < |t| ensures t[i] != t[j] {
      if t[i] == t[j] {
        RepeatCount(t, i, j);
        DistinctCount(s, t[i]);
      }
    }
  }
}
