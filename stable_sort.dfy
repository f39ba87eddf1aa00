/** The stable sort `java.util.List.sort` performs on the token lists before they are
    paged. Any stable sort under a consistent comparator yields the same list, so the
    model uses stable insertion sort: as a specification function on sequences, and
    as an in-place method on an array. */
module StableSort {

  /** `le` is a total preorder: every two elements are comparable and the
      order is transitive (a Java comparator obeying its contract). */
  ghost predicate TotalPreorder<T(!new)>(le: (T, T) -> bool) {
    && (forall a, b :: le(a, b) || le(b, a))
    && (forall a, b, c :: le(a, b) && le(b, c) ==> le(a, c))
  }

  ghost predicate SortedBy<T>(s: seq<T>, le: (T, T) -> bool) {
    forall i, j :: 0 <= i < j < |s| ==> le(s[i], s[j])
  }

  /** Inserts `x` into `s` from the right, after every element it does not precede,
      so that equal elements keep their order. */
  function Insert<T>(s: seq<T>, x: T, le: (T, T) -> bool): (r: seq<T>)
    ensures |r| == |s| + 1
  {
    if s == [] || le(s[|s| - 1], x) then s + [x]
    else Insert(s[..|s| - 1], x, le) + [s[|s| - 1]]
  }

  lemma {:induction false} InsertPermutes<T>(s: seq<T>, x: T, le: (T, T) -> bool)
    ensures multiset(Insert(s, x, le)) == multiset(s) + multiset{x}
  {
    if !(s == [] || le(s[|s| - 1], x)) {
      InsertPermutes(s[..|s| - 1], x, le);
      assert s == s[..|s| - 1] + [s[|s| - 1]];
    }
  }

  /** Stable insertion sort, adding the elements left to right. */
  function InsertionSorted<T>(s: seq<T>, le: (T, T) -> bool): (r: seq<T>)
    ensures |r| == |s|
  {
    if s == [] then []
    else Insert(InsertionSorted(s[..|s| - 1], le), s[|s| - 1], le)
  }

  lemma {:induction false} InsertKeepsSorted<T(!new)>(s: seq<T>, x: T, le: (T, T) -> bool)
    requires TotalPreorder(le) && SortedBy(s, le)
    ensures SortedBy(Insert(s, x, le), le)
  {
    if s == [] || le(s[|s| - 1], x) {
      var r := s + [x];
      forall i, j | 0 <= i < j < |r| ensures le(r[i], r[j]) {
        if j == |s| && i < |s| - 1 {
          assert le(s[i], s[|s| - 1]);
        }
      }
    } else {
      var init, last := s[..|s| - 1], s[|s| - 1];
      InsertKeepsSorted(init, x, le);
      InsertPermutes(init, x, le);
      var p := Insert(init, x, le);
      var r := p + [last];
      forall i, j | 0 <= i < j < |r| ensures le(r[i], r[j]) {
        if j == |p| {
          assert r[i] in multiset(init) + multiset{x} by {
            assert r[i] in multiset(p);
          }
          if r[i] != x {
            var k :| 0 <= k < |init| && init[k] == r[i];
            assert le(s[k], s[|s| - 1]);
          }
        }
      }
    }
  }

  /** The specification sort permutes its input, whatever the comparator. */
  lemma {:induction false} InsertionSortedPermutes<T>(s: seq<T>, le: (T, T) -> bool)
    ensures multiset(InsertionSorted(s, le)) == multiset(s)
  {
    if s != [] {
      InsertionSortedPermutes(s[..|s| - 1], le);
      InsertPermutes(InsertionSorted(s[..|s| - 1], le), s[|s| - 1], le);
      assert s == s[..|s| - 1] + [s[|s| - 1]];
    }
  }

  /** Under a total preorder the specification sort yields a sorted list. */
  lemma {:induction false} InsertionSortedIsSorted<T(!new)>(s: seq<T>, le: (T, T) -> bool)
    requires TotalPreorder(le)
    ensures SortedBy(InsertionSorted(s, le), le)
  {
    if s != [] {
      InsertionSortedIsSorted(s[..|s| - 1], le);
      InsertKeepsSorted(InsertionSorted(s[..|s| - 1], le), s[|s| - 1], le);
    }
  }

  /** One step of the sort: moves `a[i]` left into the sorted prefix `a[..i]`. */
  method InsertAt<T>(a: array<T>, i: nat, le: (T, T) -> bool)
    requires i < a.Length
    modifies a
    ensures a[..i + 1] == Insert(old(a[..i]), old(a[i]), le)
    ensures a[i + 1..] == old(a[i + 1..])
  {
    var x := a[i];
    ghost var p := a[..i];
    var j := i;
    while j > 0 && !le(a[j - 1], x)
      invariant 0 <= j <= i
      invariant a[..j] == p[..j]
      invariant a[j + 1..i + 1] == p[j..]
      invariant a[i + 1..] == old(a[i + 1..])
      invariant Insert(p, x, le) == Insert(p[..j], x, le) + p[j..]
    {
      ShiftStep(p, x, j, le);
      a[j] := a[j - 1];
      j := j - 1;
    }
    a[j] := x;
    assert a[..i + 1] == p[..j] + [x] + p[j..];
  }

  lemma ShiftStep<T>(p: seq<T>, x: T, j: nat, le: (T, T) -> bool)
    requires 0 < j <= |p| && !le(p[j - 1], x)
    ensures Insert(p[..j], x, le) + p[j..] == Insert(p[..j - 1], x, le) + p[j - 1..]
  {
    assert p[..j][..j - 1] == p[..j - 1];
    assert p[j - 1..] == [p[j - 1]] + p[j..];
  }

  /** Sorts `a` in place: the stand-in for `tokenList.sort(comparator)`. */
  method SortInPlace<T>(a: array<T>, le: (T, T) -> bool)
    modifies a
    ensures a[..] == InsertionSorted(old(a[..]), le)
  {
    ghost var s := a[..];
    var i := 0;
    while i < a.Length
      invariant 0 <= i <= a.Length
      invariant a[..i] == InsertionSorted(s[..i], le)
      invariant a[i..] == s[i..]
    {
      InsertAt(a, i, le);
      assert s[..i + 1][..i] == s[..i];
      i := i + 1;
    }
    assert a[..] == a[..a.Length];
    assert s == s[..a.Length];
  }
}
