/** Bounded windowing of a token list, as both token stores do it
    (db/TokenStore.java and db/FutureTokenPackStore.java, `getTokenPaginated`):
    reject negative arguments and an offset at or past the end, sort, cap the
    limit at the protocol maximum and clamp the window end to the list size. */
module Pagination {
  import opened Wrappers
  import opened StableSort

  function Min(a: int, b: int): (r: int) {
    if a <= b then a else b
  }

  /** The page: absent for invalid arguments, otherwise the window of the sorted
      list that starts at `offset` and holds min(limit, maxCount, size - offset)
      elements. */
  function Paginate<T>(list: seq<T>, offset: int, limit: int, le: (T, T) -> bool, maxCount: nat): (r: Option<seq<T>>)
    ensures r.Some? <==> 0 <= offset < |list| && 0 <= limit
    ensures r.Some? ==> |r.value| == Min(Min(limit, maxCount), |list| - offset)
  {
    if offset < 0 || limit < 0 || |list| <= offset then None
    else Some(InsertionSorted(list, le)[offset..offset + Min(Min(limit, maxCount), |list| - offset)])
  }

  /** The private `getTokenPaginated(tokenList, offset, limit)`: sorts the caller's
      list in place (only when the arguments are valid) and returns a window of it. */
  method GetTokenPaginated<T>(tokenList: array<T>, offset: int, limit: int, le: (T, T) -> bool, maxCount: nat)
    returns (r: Option<seq<T>>)
    modifies tokenList
    ensures r == Paginate(old(tokenList[..]), offset, limit, le, maxCount)
    ensures tokenList[..] == if r.None? then old(tokenList[..]) else InsertionSorted(old(tokenList[..]), le)
  {
    if limit < 0 || offset < 0 {
      return None;
    }
    if tokenList.Length <= offset {
      return None;
    }
    SortInPlace(tokenList, le);
    var cap := limit;
    cap := if cap > maxCount then maxCount else cap;
    var end := offset + cap;
    end := if end > tokenList.Length then tokenList.Length else end;
    r := Some(tokenList[offset..end]);
  }

  /** A page never holds more than the protocol maximum, nor more than asked for,
      and its window lies inside the list. */
  lemma PageBounds<T>(list: seq<T>, offset: int, limit: int, le: (T, T) -> bool, maxCount: nat)
    requires Paginate(list, offset, limit, le, maxCount).Some?
    ensures var page := Paginate(list, offset, limit, le, maxCount).value;
      |page| <= maxCount && |page| <= limit && offset + |page| <= |list|
  {
  }

  /** A zero limit with a valid offset gives an empty page, not an absent one. */
  lemma ZeroLimitGivesEmptyPage<T>(list: seq<T>, offset: int, le: (T, T) -> bool, maxCount: nat)
    requires 0 <= offset < |list|
    ensures Paginate(list, offset, 0, le, maxCount) == Some([])
  {
  }

  /** Under a total preorder every page is sorted. */
  lemma PageSorted<T(!new)>(list: seq<T>, offset: int, limit: int, le: (T, T) -> bool, maxCount: nat)
    requires TotalPreorder(le)
    requires Paginate(list, offset, limit, le, maxCount).Some?
    ensures SortedBy(Paginate(list, offset, limit, le, maxCount).value, le)
  {
    InsertionSortedIsSorted(list, le);
  }

  lemma SliceMultiset<T>(s: seq<T>, i: nat, j: nat)
    requires i <= j <= |s|
    ensures multiset(s[i..j]) <= multiset(s)
  {
    assert s == s[..i] + s[i..j] + s[j..];
  }

  /** A page is a contiguous slice of a permutation of the input, so each of its
      elements occurs at least as often in the input as in the page. */
  lemma PageFromInput<T>(list: seq<T>, offset: int, limit: int, le: (T, T) -> bool, maxCount: nat)
    requires Paginate(list, offset, limit, le, maxCount).Some?
    ensures multiset(InsertionSorted(list, le)) == multiset(list)
    ensures Paginate(list, offset, limit, le, maxCount).value
         == InsertionSorted(list, le)[offset..offset + |Paginate(list, offset, limit, le, maxCount).value|]
    ensures multiset(Paginate(list, offset, limit, le, maxCount).value) <= multiset(list)
  {
    var page := Paginate(list, offset, limit, le, maxCount).value;
    InsertionSortedPermutes(list, le);
    SliceMultiset(InsertionSorted(list, le), offset, offset + |page|);
  }

  /** Every element of a page is an element of the input. */
  lemma PageMembersFromInput<T>(list: seq<T>, offset: int, limit: int, le: (T, T) -> bool, maxCount: nat, x: T)
    requires Paginate(list, offset, limit, le, maxCount).Some?
    requires x in Paginate(list, offset, limit, le, maxCount).value
    ensures x in list
  {
    PageFromInput(list, offset, limit, le, maxCount);
    assert x in multiset(Paginate(list, offset, limit, le, maxCount).value);
  }

  /** Consecutive pages fit together: a page of n elements followed by the page at
      offset + n is the page of both sizes together, as long as the combined size
      stays within the maximum and the second page starts within the list. */
  lemma ConsecutivePages<T>(list: seq<T>, offset: int, n: nat, m: nat, le: (T, T) -> bool, maxCount: nat)
    requires 0 <= offset && offset + n < |list| && n + m <= maxCount
    ensures Paginate(list, offset, n, le, maxCount).value + Paginate(list, offset + n, m, le, maxCount).value
         == Paginate(list, offset, n + m, le, maxCount).value
  {
    var sorted := InsertionSorted(list, le);
    var e := offset + Min(n + m, |list| - offset);
    assert sorted[offset..e] == sorted[offset..offset + n] + sorted[offset + n..e];
  }
}
