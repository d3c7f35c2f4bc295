/** `Array.prototype.sort(compare)`: a stable sort driven by a comparator
    that returns a negative number, zero or a positive number. An element
    moves in front of another only when the comparator says the other
    belongs after it (`compare(other, x) > 0`); ties keep their order. */
module Sorting {
  import opened Seqs

  /** Places `x` into `t` from the right: it passes only the elements the
      comparator puts after it. */
  function InsertLast<T>(t: seq<T>, x: T, compare: (T, T) -> int): (r: seq<T>)
    ensures |r| == |t| + 1
    decreases |t|
  {
    if t == [] || compare(t[|t| - 1], x) <= 0 then t + [x]
    else InsertLast(t[..|t| - 1], x, compare) + [t[|t| - 1]]
  }

  lemma {:induction false} InsertLastAdds<T>(t: seq<T>, x: T, compare: (T, T) -> int)
    ensures multiset(InsertLast(t, x, compare)) == multiset(t) + multiset{x}
    decreases |t|
  {
    if !(t == [] || compare(t[|t| - 1], x) <= 0) {
      InsertLastAdds(t[..|t| - 1], x, compare);
      assert t == t[..|t| - 1] + [t[|t| - 1]];
    }
  }

  /** The stable sort of `s`, built by inserting one element after another. */
  function SortBy<T>(s: seq<T>, compare: (T, T) -> int): (r: seq<T>)
    ensures |r| == |s|
    decreases |s|
  {
    if s == [] then [] else InsertLast(SortBy(s[..|s| - 1], compare), s[|s| - 1], compare)
  }

  /** No element is followed by one the comparator puts before it. */
  predicate Sorted<T>(s: seq<T>, compare: (T, T) -> int) {
    forall i, j :: 0 <= i < j < |s| ==> compare(s[i], s[j]) <= 0
  }

  /** What section 23.1.3.30 of ECMA-262 asks of a comparator for the sort
      to be well defined: the sign flips with the arguments and "not after"
      is transitive. */
  ghost predicate Consistent<T(!new)>(compare: (T, T) -> int) {
    && (forall a, b :: compare(a, b) > 0 ==> compare(b, a) < 0)
    && (forall a, b, c :: compare(a, b) <= 0 && compare(b, c) <= 0 ==> compare(a, c) <= 0)
  }

  /** Sorting rearranges and neither adds nor loses an element. */
  lemma {:induction false} SortIsPermutation<T>(s: seq<T>, compare: (T, T) -> int)
    ensures multiset(SortBy(s, compare)) == multiset(s)
    decreases |s|
  {
    if s != [] {
      SortIsPermutation(s[..|s| - 1], compare);
      InsertLastAdds(SortBy(s[..|s| - 1], compare), s[|s| - 1], compare);
      assert s == s[..|s| - 1] + [s[|s| - 1]];
    }
  }

  lemma {:induction false} InsertLastSorted<T(!new)>(t: seq<T>, x: T, compare: (T, T) -> int)
    requires Consistent(compare)
    requires Sorted(t, compare)
    ensures Sorted(InsertLast(t, x, compare), compare)
    decreases |t|
  {
    if t == [] || compare(t[|t| - 1], x) <= 0 {
      AppendSorted(t, x, compare);
    } else {
      var t', last := t[..|t| - 1], t[|t| - 1];
      assert Sorted(t', compare);
      InsertLastSorted(t', x, compare);
      InsertLastAdds(t', x, compare);
      PassedSorted(t, x, compare);
    }
  }

  /** An element no smaller than the last of a sorted sequence extends it. */
  lemma AppendSorted<T(!new)>(t: seq<T>, x: T, compare: (T, T) -> int)
    requires Consistent(compare)
    requires Sorted(t, compare)
    requires t == [] || compare(t[|t| - 1], x) <= 0
    ensures Sorted(t + [x], compare)
  {
    var r := t + [x];
    forall i, j | 0 <= i < j < |r| ensures compare(r[i], r[j]) <= 0 {
      if j == |t| && i < |t| - 1 {
        assert compare(t[i], t[|t| - 1]) <= 0;
      }
    }
  }

  /** When `x` passes the last element, that element ends the result. */
  lemma PassedSorted<T(!new)>(t: seq<T>, x: T, compare: (T, T) -> int)
    requires Consistent(compare)
    requires Sorted(t, compare)
    requires t != [] && compare(t[|t| - 1], x) > 0
    requires Sorted(InsertLast(t[..|t| - 1], x, compare), compare)
    requires multiset(InsertLast(t[..|t| - 1], x, compare)) == multiset(t[..|t| - 1]) + multiset{x}
    ensures Sorted(InsertLast(t[..|t| - 1], x, compare) + [t[|t| - 1]], compare)
  {
    var t', last := t[..|t| - 1], t[|t| - 1];
    var left := InsertLast(t', x, compare);
    forall y | y in left ensures compare(y, last) <= 0 {
      assert y in multiset(t') + multiset{x} by {
        assert y in multiset(left);
      }
      if y != x {
        var k :| 0 <= k < |t'| && t'[k] == y;
        assert compare(t[k], t[|t| - 1]) <= 0;
      }
    }
    var r := left + [last];
    forall i, j | 0 <= i < j < |r| ensures compare(r[i], r[j]) <= 0 {
      if j == |left| {
        assert r[i] in left;
      }
    }
  }

  /** Under a consistent comparator the result is sorted. */
  lemma {:induction false} SortIsSorted<T(!new)>(s: seq<T>, compare: (T, T) -> int)
    requires Consistent(compare)
    ensures Sorted(SortBy(s, compare), compare)
    decreases |s|
  {
    if s != [] {
      SortIsSorted(s[..|s| - 1], compare);
      InsertLastSorted(SortBy(s[..|s| - 1], compare), s[|s| - 1], compare);
    }
  }

  /** An already sorted sequence is left as it is. */
  lemma {:induction false} SortKeepsSorted<T>(s: seq<T>, compare: (T, T) -> int)
    requires Sorted(s, compare)
    ensures SortBy(s, compare) == s
    decreases |s|
  {
    if s != [] {
      var s' := s[..|s| - 1];
      assert Sorted(s', compare);
      SortKeepsSorted(s', compare);
      if |s'| > 0 {
        assert compare(s'[|s'| - 1], s[|s| - 1]) <= 0;
      }
      assert s' + [s[|s| - 1]] == s;
    }
  }

  lemma {:induction false} InsertLastOther<T>(t: seq<T>, x: T, compare: (T, T) -> int, p: T -> bool)
    requires !p(x)
    ensures Where(InsertLast(t, x, compare), p) == Where(t, p)
    decreases |t|
  {
    if t == [] || compare(t[|t| - 1], x) <= 0 {
      WhereAppend(t, [x], p);
    } else {
      var t', last := t[..|t| - 1], t[|t| - 1];
      InsertLastOther(t', x, compare, p);
      var left := InsertLast(t', x, compare);
      assert InsertLast(t, x, compare) == left + [last];
      WhereAppend(left, [last], p);
      WhereAppend(t', [last], p);
      assert t == t' + [last];
    }
  }

  lemma {:induction false} InsertLastTied<T>(t: seq<T>, x: T, compare: (T, T) -> int, p: T -> bool)
    requires p(x)
    requires forall a, b :: p(a) && p(b) ==> compare(a, b) <= 0
    ensures Where(InsertLast(t, x, compare), p) == Where(t, p) + [x]
    decreases |t|
  {
    if t == [] || compare(t[|t| - 1], x) <= 0 {
      WhereAppend(t, [x], p);
    } else {
      var t', last := t[..|t| - 1], t[|t| - 1];
      InsertLastTied(t', x, compare, p);
      assert !p(last) by {
        assert p(last) ==> compare(last, x) <= 0;
      }
      assert t == t' + [last];
      WhereSkipsLast(InsertLast(t', x, compare), last, p);
      WhereSkipsLast(t', last, p);
    }
  }

  /** An unselected element at the end does not show in the filter. */
  lemma WhereSkipsLast<T>(s: seq<T>, y: T, p: T -> bool)
    requires !p(y)
    ensures Where(s + [y], p) == Where(s, p)
  {
    WhereAppend(s, [y], p);
    assert Where([y], p) == [];
  }

  /** Stability: elements the comparator ties with one another keep their
      relative order, whatever else is sorted around them. */
  lemma {:induction false} SortIsStable<T>(s: seq<T>, compare: (T, T) -> int, p: T -> bool)
    requires forall a, b :: p(a) && p(b) ==> compare(a, b) <= 0
    ensures Where(SortBy(s, compare), p) == Where(s, p)
    decreases |s|
  {
    if s != [] {
      SortIsStable(s[..|s| - 1], compare, p);
      StableStep(s[..|s| - 1], s[|s| - 1], compare, p);
      assert s == s[..|s| - 1] + [s[|s| - 1]];
    }
  }

  /** Inserting one more element keeps the filtered order stable. */
  lemma StableStep<T>(s: seq<T>, x: T, compare: (T, T) -> int, p: T -> bool)
    requires forall a, b :: p(a) && p(b) ==> compare(a, b) <= 0
    requires Where(SortBy(s, compare), p) == Where(s, p)
    ensures Where(InsertLast(SortBy(s, compare), x, compare), p) == Where(s + [x], p)
  {
    WhereAppend(s, [x], p);
    if p(x) {
      InsertLastTied(SortBy(s, compare), x, compare, p);
      assert Where([x], p) == [x];
    } else {
      InsertLastOther(SortBy(s, compare), x, compare, p);
      assert Where([x], p) == [];
    }
  }

  /** `a.sort(compare)` on an array: insertion sort, in place. */
  method SortInPlace<T>(a: array<T>, compare: (T, T) -> int)
    modifies a
    ensures a[..] == SortBy(old(a[..]), compare)
  {
    ghost var s := a[..];
    var i := 0;
    while i < a.Length
      invariant 0 <= i <= a.Length
      invariant a[..i] == SortBy(s[..i], compare)
      invariant a[i..] == s[i..]
    {
      ghost var before := a[..];
      InsertAt(a, i, compare);
      SortedPrefixStep(s, before, a[..], i, compare);
      i := i + 1;
    }
    assert a[..] == a[..a.Length] && s == s[..a.Length];
  }

  /** One round of the outer loop sorts one more element of the prefix. */
  lemma SortedPrefixStep<T>(s: seq<T>, before: seq<T>, after: seq<T>, i: nat, compare: (T, T) -> int)
    requires i < |s| == |before| == |after|
    requires before[..i] == SortBy(s[..i], compare) && before[i..] == s[i..]
    requires after[..i + 1] == InsertLast(before[..i], before[i], compare)
    requires after[i + 1..] == before[i + 1..]
    ensures after[..i + 1] == SortBy(s[..i + 1], compare) && after[i + 1..] == s[i + 1..]
  {
    assert s[..i + 1][..i] == s[..i];
    assert before[i] == s[i];
    assert before[i + 1..] == s[i + 1..] by {
      assert before[i + 1..] == before[i..][1..];
    }
  }

  /** Moves `a[i]` left into the prefix `a[..i]`, as `InsertLast` places it. */
  method InsertAt<T>(a: array<T>, i: nat, compare: (T, T) -> int)
    requires i < a.Length
    modifies a
    ensures a[..i + 1] == InsertLast(old(a[..i]), old(a[i]), compare)
    ensures a[i + 1..] == old(a[i + 1..])
  {
    var x := a[i];
    ghost var t := a[..i];
    ghost var rest := a[i + 1..];
    var j := i;
    assert a[..] == t[..j] + [a[j]] + t[j..] + rest;
    while j > 0 && compare(a[j - 1], x) > 0
      invariant 0 <= j <= i
      invariant a[..] == t[..j] + [a[j]] + t[j..] + rest
      invariant forall k :: j <= k < i ==> compare(t[k], x) > 0
    {
      ghost var g := a[j];
      ShiftGap(t, rest, g, j);
      a[j] := a[j - 1];
      j := j - 1;
    }
    ghost var g := a[j];
    a[j] := x;
    assert a[..] == (t[..j] + [g] + t[j..] + rest)[j := x];
    InsertLastAt(t, x, compare, j);
    PlaceGap(t, rest, g, x, j);
  }

  /** Copying the element left of the gap into it moves the gap one to the
      left, and the copied value is the gap's new content. */
  lemma ShiftGap<T>(t: seq<T>, rest: seq<T>, g: T, j: nat)
    requires 0 < j <= |t|
    ensures (t[..j] + [g] + t[j..] + rest)[j := t[j - 1]]
         == t[..j - 1] + [t[j - 1]] + t[j - 1..] + rest
    ensures (t[..j] + [g] + t[j..] + rest)[j - 1] == t[j - 1]
  {
    assert t[..j] == t[..j - 1] + [t[j - 1]];
    assert t[j - 1..] == [t[j - 1]] + t[j..];
  }

  /** Writing `x` into the gap completes the insertion. */
  lemma PlaceGap<T>(t: seq<T>, rest: seq<T>, g: T, x: T, j: nat)
    requires j <= |t|
    ensures (t[..j] + [g] + t[j..] + rest)[j := x][..|t| + 1] == t[..j] + [x] + t[j..]
    ensures (t[..j] + [g] + t[j..] + rest)[j := x][|t| + 1..] == rest
  {
    assert (t[..j] + [g] + t[j..] + rest)[j := x] == t[..j] + [x] + t[j..] + rest;
  }

  /** `x` lands at `j` when the element before `j` does not sort after it
      and every element from `j` on does. */
  lemma {:induction false} InsertLastAt<T>(t: seq<T>, x: T, compare: (T, T) -> int, j: nat)
    requires j <= |t| && (j == 0 || compare(t[j - 1], x) <= 0)
    requires forall k :: j <= k < |t| ==> compare(t[k], x) > 0
    ensures InsertLast(t, x, compare) == t[..j] + [x] + t[j..]
    decreases |t|
  {
    if j == |t| {
      assert t[..j] == t && t[j..] == [];
    } else {
      var t' := t[..|t| - 1];
      assert t'[..j] == t[..j];
      InsertLastAt(t', x, compare, j);
      assert t[j..] == t'[j..] + [t[|t| - 1]];
    }
  }

}
