/**
 * `Array.prototype.sort(comparefn)` as a stable insertion sort: an element
 * moves left past every element the comparator says it comes before
 * (`comparefn(x, y) < 0`), and stops at the first one it does not.
 */
module Sorting {

  /** A comparator `(x, y) => number`: negative puts `x` first. */
  type Comparator<!T> = (T, T) -> int

  /** Each element compares as no greater than the next. */
  predicate Sorted<T>(s: seq<T>, cmp: Comparator<T>) {
    forall i | 0 <= i < |s| - 1 :: cmp(s[i], s[i + 1]) <= 0
  }

  /** Swapping the arguments negates the comparison, for any two elements of `s`. */
  predicate Antisymmetric<T(==)>(s: seq<T>, cmp: Comparator<T>) {
    forall x, y | x in s && y in s :: cmp(y, x) == -cmp(x, y)
  }

  /** `x` inserted into `t`: it moves left past every element it compares as less than. */
  function Insert<T(==)>(t: seq<T>, x: T, cmp: Comparator<T>): (r: seq<T>)
    ensures |r| == |t| + 1
    ensures r[|r| - 1] == x || (t != [] && r[|r| - 1] == t[|t| - 1])
    decreases |t|
  {
    if t == [] then [x]
    else
      var n := |t| - 1;
      assert t == t[..n] + [t[n]];
      if cmp(x, t[n]) < 0 then Insert(t[..n], x, cmp) + [t[n]]
      else t + [x]
  }

  /** Insertion sort: each element in turn inserted into the sorted prefix before it. */
  function SortBy<T(==)>(s: seq<T>, cmp: Comparator<T>): (r: seq<T>)
    ensures |r| == |s|
    decreases |s|
  {
    if s == [] then []
    else
      var n := |s| - 1;
      assert s == s[..n] + [s[n]];
      Insert(SortBy(s[..n], cmp), s[n], cmp)
  }

  /** Insertion adds `x` and keeps every element of `t`. */
  lemma {:induction false} InsertPermutes<T>(t: seq<T>, x: T, cmp: Comparator<T>)
    ensures multiset(Insert(t, x, cmp)) == multiset(t) + multiset{x}
    decreases |t|
  {
    if t != [] {
      var n := |t| - 1;
      assert t == t[..n] + [t[n]];
      if cmp(x, t[n]) < 0 {
        InsertPermutes(t[..n], x, cmp);
      }
    }
  }

  /** Sorting reorders and neither adds nor drops elements. */
  lemma {:induction false} SortByPermutes<T>(s: seq<T>, cmp: Comparator<T>)
    ensures multiset(SortBy(s, cmp)) == multiset(s)
    decreases |s|
  {
    if s != [] {
      var n := |s| - 1;
      assert s == s[..n] + [s[n]];
      SortByPermutes(s[..n], cmp);
      InsertPermutes(SortBy(s[..n], cmp), s[n], cmp);
    }
  }

  lemma {:induction false} SubsetAntisymmetric<T>(s: seq<T>, t: seq<T>, cmp: Comparator<T>)
    requires Antisymmetric(s, cmp)
    requires forall y | y in t :: y in s
    ensures Antisymmetric(t, cmp)
  {
  }

  lemma SortedSnoc<T>(s: seq<T>, x: T, cmp: Comparator<T>)
    requires Sorted(s, cmp)
    requires s != [] ==> cmp(s[|s| - 1], x) <= 0
    ensures Sorted(s + [x], cmp)
  {
    forall i | 0 <= i < |s| ensures (s + [x])[i] == s[i] { }
  }

  lemma {:induction false} InsertSorted<T>(t: seq<T>, x: T, cmp: Comparator<T>)
    requires Sorted(t, cmp)
    requires Antisymmetric(t + [x], cmp)
    ensures Sorted(Insert(t, x, cmp), cmp)
    decreases |t|, 1
  {
    if t != [] {
      var n := |t| - 1;
      assert t == t[..n] + [t[n]];
      if cmp(x, t[n]) < 0 {
        InsertSortedMoving(t, x, cmp);
      } else {
        assert t[n] in t + [x] && x in t + [x];
        assert cmp(t[n], x) <= 0;
        SortedSnoc(t, x, cmp);
      }
    }
  }

  /** Inserting an element that goes before the last one: the last one stays last. */
  lemma {:induction false} InsertSortedMoving<T>(t: seq<T>, x: T, cmp: Comparator<T>)
    requires t != [] && Sorted(t, cmp)
    requires Antisymmetric(t + [x], cmp)
    requires cmp(x, t[|t| - 1]) < 0
    ensures Sorted(Insert(t, x, cmp), cmp)
    decreases |t|, 0
  {
    var n := |t| - 1;
    assert t == t[..n] + [t[n]];
    SubsetAntisymmetric(t + [x], t[..n] + [x], cmp);
    SortedPrefix(t, n, cmp);
    InsertSorted(t[..n], x, cmp);
    var front := Insert(t[..n], x, cmp);
    assert Insert(t, x, cmp) == front + [t[n]];
    assert front[n] == x || (0 < n && front[n] == t[n - 1]);
    SortedSnoc(front, t[n], cmp);
  }

  /** Sorting with a comparator that is antisymmetric on the input gives a sorted permutation. */
  lemma {:induction false} SortBySorted<T>(s: seq<T>, cmp: Comparator<T>)
    requires Antisymmetric(s, cmp)
    ensures Sorted(SortBy(s, cmp), cmp)
    decreases |s|
  {
    if s != [] {
      var n := |s| - 1;
      assert s == s[..n] + [s[n]];
      SubsetAntisymmetric(s, s[..n], cmp);
      SortBySorted(s[..n], cmp);
      var t := SortBy(s[..n], cmp);
      SortByPermutes(s[..n], cmp);
      forall y | y in t + [s[n]] ensures y in s {
        if y in t {
          assert y in multiset(s[..n]);
        }
      }
      SubsetAntisymmetric(s, t + [s[n]], cmp);
      InsertSorted(t, s[n], cmp);
    }
  }

  /** A sequence already in order is left as it is. */
  lemma {:induction false} SortByOfSorted<T>(s: seq<T>, cmp: Comparator<T>)
    requires Sorted(s, cmp) && Antisymmetric(s, cmp)
    ensures SortBy(s, cmp) == s
    decreases |s|
  {
    if s != [] {
      var n := |s| - 1;
      assert s == s[..n] + [s[n]];
      SubsetAntisymmetric(s, s[..n], cmp);
      SortedPrefix(s, n, cmp);
      SortByOfSorted(s[..n], cmp);
      if 0 < n {
        assert s[n - 1] in s && s[n] in s;
        assert cmp(s[n], s[n - 1]) >= 0;
        assert s[..n][n - 1] == s[n - 1];
      }
    }
  }

  lemma SortedPrefix<T>(s: seq<T>, n: int, cmp: Comparator<T>)
    requires Sorted(s, cmp) && 0 <= n <= |s|
    ensures Sorted(s[..n], cmp)
  {
    forall i | 0 <= i < n - 1 ensures cmp(s[..n][i], s[..n][i + 1]) <= 0 {
      assert s[..n][i] == s[i] && s[..n][i + 1] == s[i + 1];
    }
  }


  /**
   * `cmp(x, y) <= 0` is a partial order on the elements of `s`: two elements
   * each at most the other are the same element, and it is transitive.
   * Totality is not asked for.
   */
  predicate PartialOrderOn<T(==)>(s: seq<T>, cmp: Comparator<T>) {
    && (forall x, y | x in s && y in s && cmp(x, y) <= 0 && cmp(y, x) <= 0 :: x == y)
    && (forall x, y, z | x in s && y in s && z in s && cmp(x, y) <= 0 && cmp(y, z) <= 0 :: cmp(x, z) <= 0)
  }

  lemma PartialOrderOnSubset<T>(s: seq<T>, t: seq<T>, cmp: Comparator<T>)
    requires PartialOrderOn(s, cmp)
    requires forall y | y in t :: y in s
    ensures PartialOrderOn(t, cmp)
  {
  }

  /** Under a partial order, a sequence sorted pair by pair is sorted between any two positions. */
  lemma {:induction false} SortedPair<T>(s: seq<T>, cmp: Comparator<T>, i: int, j: int)
    requires Sorted(s, cmp) && PartialOrderOn(s, cmp)
    requires 0 <= i < j < |s|
    ensures cmp(s[i], s[j]) <= 0
    decreases j - i
  {
    if i + 1 < j {
      SortedPair(s, cmp, i, j - 1);
      assert s[i] in s && s[j - 1] in s && s[j] in s;
    }
  }

  /**
   * Under a partial order there is one sorted arrangement of a multiset:
   * two sorted sequences with the same elements are equal.
   */
  lemma {:induction false} SortedUnique<T>(s: seq<T>, t: seq<T>, cmp: Comparator<T>)
    requires Sorted(s, cmp) && Sorted(t, cmp)
    requires multiset(s) == multiset(t)
    requires PartialOrderOn(s, cmp)
    ensures s == t
    decreases |s|
  {
    if s == [] {
      assert |t| == |multiset(t)| == 0;
    } else {
      SortedHeads(s, t, cmp);
      SameTails(s, t);
      SortedTail(s, cmp);
      SortedTail(t, cmp);
      PartialOrderOnTail(s, cmp);
      SortedUnique(s[1..], t[1..], cmp);
      SameHeadAndTail(s, t);
    }
  }

  lemma PartialOrderOnTail<T>(s: seq<T>, cmp: Comparator<T>)
    requires PartialOrderOn(s, cmp) && s != []
    ensures PartialOrderOn(s[1..], cmp)
  {
    assert forall y | y in s[1..] :: y in s;
    PartialOrderOnSubset(s, s[1..], cmp);
  }

  lemma SameHeadAndTail<T>(s: seq<T>, t: seq<T>)
    requires s != [] && t != [] && s[0] == t[0] && s[1..] == t[1..]
    ensures s == t
  {
    assert s == [s[0]] + s[1..] && t == [t[0]] + t[1..];
  }

  lemma SameTails<T>(s: seq<T>, t: seq<T>)
    requires s != [] && t != [] && s[0] == t[0] && multiset(s) == multiset(t)
    ensures multiset(s[1..]) == multiset(t[1..])
  {
    assert s == [s[0]] + s[1..] && t == [t[0]] + t[1..];
    assert multiset(s[1..]) == multiset(s) - multiset{s[0]};
    assert multiset(t[1..]) == multiset(t) - multiset{t[0]};
  }

  lemma SortedTail<T>(s: seq<T>, cmp: Comparator<T>)
    requires Sorted(s, cmp) && s != []
    ensures Sorted(s[1..], cmp)
  {
    forall i | 0 <= i < |s| - 2 ensures cmp(s[1..][i], s[1..][i + 1]) <= 0 {
      assert s[1..][i] == s[i + 1] && s[1..][i + 1] == s[i + 2];
    }
  }

  /** Two sorted sequences with the same elements start with the same one. */
  lemma SortedHeads<T>(s: seq<T>, t: seq<T>, cmp: Comparator<T>)
    requires Sorted(s, cmp) && Sorted(t, cmp)
    requires multiset(s) == multiset(t) && s != []
    requires PartialOrderOn(s, cmp)
    ensures t != [] && s[0] == t[0]
  {
    assert |t| == |multiset(t)| == |s|;
    assert s[0] in multiset(t) && t[0] in multiset(s);
    assert forall y | y in t :: y in s by {
      assert forall y | y in t :: y in multiset(s);
    }
    PartialOrderOnSubset(s, t, cmp);
    var j :| 0 <= j < |t| && t[j] == s[0];
    var i :| 0 <= i < |s| && s[i] == t[0];
    if 0 < j {
      SortedPair(t, cmp, 0, j);
    }
    if 0 < i {
      SortedPair(s, cmp, 0, i);
    }
    assert t[0] in s;
  }

  /** The in-place `a.sort(cmp)`. */
  method SortInPlace<T(==)>(a: array<T>, cmp: Comparator<T>)
    modifies a
    ensures a[..] == SortBy(old(a[..]), cmp)
  {
    ghost var s := a[..];
    for i := 0 to a.Length
      invariant a[..i] == SortBy(s[..i], cmp)
      invariant forall k | i <= k < a.Length :: a[k] == s[k]
    {
      InsertAt(a, i, cmp);
      SortByStep(s, i, cmp);
    }
    assert s[..a.Length] == s;
  }

  lemma SortByStep<T>(s: seq<T>, i: int, cmp: Comparator<T>)
    requires 0 <= i < |s|
    ensures SortBy(s[..i + 1], cmp) == Insert(SortBy(s[..i], cmp), s[i], cmp)
  {
    assert s[..i + 1][..i] == s[..i];
  }

  /** One pass of insertion sort: `a[i]` moved left into the sorted prefix `a[..i]`. */
  method InsertAt<T(==)>(a: array<T>, i: int, cmp: Comparator<T>)
    requires 0 <= i < a.Length
    modifies a
    ensures a[..i + 1] == Insert(old(a[..i]), old(a[i]), cmp)
    ensures forall k | i < k < a.Length :: a[k] == old(a[k])
  {
    ghost var t := a[..i];
    var x := a[i];
    var j := ShiftGreater(a, i, x, t, cmp);
    a[j] := x;
    InsertStop(t, x, j, cmp);
    ghost var b := a[..i + 1];
    assert forall k | 0 <= k < j :: b[k] == t[k];
    assert forall k | j < k < |b| :: b[k] == t[k - 1];
    Spliced(b, t, x, j);
  }

  /**
   * The loop of InsertAt: every element of `a[..i]` that `x` compares as
   * less than, from the right, moves one place right; `j` is the gap left.
   */
  method ShiftGreater<T(==)>(a: array<T>, i: int, x: T, ghost t: seq<T>, cmp: Comparator<T>) returns (j: int)
    requires 0 <= i < a.Length && t == a[..i]
    modifies a
    ensures 0 <= j <= i
    ensures j == 0 || cmp(x, t[j - 1]) >= 0
    ensures forall k | 0 <= k < j :: a[k] == t[k]
    ensures forall k | j < k <= i :: a[k] == t[k - 1]
    ensures forall k | i < k < a.Length :: a[k] == old(a[k])
    ensures Insert(t, x, cmp) == Insert(t[..j], x, cmp) + t[j..]
  {
    j := i;
    assert t[..j] == t && t[j..] == [];
    while 0 < j && cmp(x, a[j - 1]) < 0
      invariant 0 <= j <= i
      invariant forall k | 0 <= k < j :: a[k] == t[k]
      invariant forall k | j < k <= i :: a[k] == t[k - 1]
      invariant forall k | i < k < a.Length :: a[k] == old(a[k])
      invariant Insert(t, x, cmp) == Insert(t[..j], x, cmp) + t[j..]
      decreases j
    {
      InsertStep(t, x, j, cmp);
      assert a[j - 1] == t[j - 1];
      a[j] := a[j - 1];
      assert forall k | j <= k <= i :: a[k] == t[k - 1];
      j := j - 1;
    }
  }

  /** A sequence that holds `t` with `x` put in at index `j`. */
  lemma Spliced<T>(b: seq<T>, t: seq<T>, x: T, j: int)
    requires 0 <= j <= |t| && |b| == |t| + 1
    requires forall k | 0 <= k < j :: b[k] == t[k]
    requires b[j] == x
    requires forall k | j < k < |b| :: b[k] == t[k - 1]
    ensures b == t[..j] + [x] + t[j..]
  {
  }

  lemma {:induction false} InsertStop<T>(t: seq<T>, x: T, j: int, cmp: Comparator<T>)
    requires 0 <= j <= |t|
    requires j == 0 || cmp(x, t[j - 1]) >= 0
    requires Insert(t, x, cmp) == Insert(t[..j], x, cmp) + t[j..]
    ensures Insert(t, x, cmp) == t[..j] + [x] + t[j..]
  {
    if 0 < j {
      assert t[..j] == t[..j][..j - 1] + [t[j - 1]];
    }
  }

  lemma {:induction false} InsertStep<T>(t: seq<T>, x: T, j: int, cmp: Comparator<T>)
    requires 0 < j <= |t|
    requires cmp(x, t[j - 1]) < 0
    requires Insert(t, x, cmp) == Insert(t[..j], x, cmp) + t[j..]
    ensures Insert(t, x, cmp) == Insert(t[..j - 1], x, cmp) + t[j - 1..]
  {
    assert t[..j][..j - 1] == t[..j - 1];
    assert [t[j - 1]] + t[j..] == t[j - 1..];
  }
}
