/** The future-token-pack table (db/FutureTokenPackStore.java): its full scan and
    its pages, sorted by deal count. */
module FutureTokenPackStore {
  import opened Wrappers
  import opened ByteKeys
  import opened StableSort
  import opened Tables
  import Pagination

  /** A future-token pack; the fields other than the deal count do not matter here
      and are kept as their encoded bytes. */
  datatype FutureTokenPackCapsule = FutureTokenPackCapsule(dealsCount: int, otherFields: Bytes)

  /** `Comparator.comparing(index -> index.getInstance().getDealsCount())`:
      `a` may come before `b`. */
  predicate DealsCountOrder(a: FutureTokenPackCapsule, b: FutureTokenPackCapsule) {
    a.dealsCount <= b.dealsCount
  }

  lemma DealsCountOrderIsTotalPreorder()
    ensures TotalPreorder(DealsCountOrder)
  {
  }

  /** `getAllTokens`: every pack of the table once, in iteration order. */
  function GetAllTokens(store: map<Bytes, FutureTokenPackCapsule>, order: seq<Bytes>): (r: seq<FutureTokenPackCapsule>)
    requires IterationOrder(store, order)
    ensures |r| == |store| == |order|
    ensures forall i :: 0 <= i < |r| ==> r[i] == store[order[i]]
    ensures forall k :: k in store ==> store[k] in r
    ensures forall t :: t in r ==> t in store.Values
  {
    AllValues(store, order)
  }

  /** The public `getTokenPaginated(offset, limit)`: pages a fresh full scan;
      `maxCount` is the protocol's TOKEN_ISSUE_COUNT_LIMIT_MAX. */
  method GetTokenPaginated(store: map<Bytes, FutureTokenPackCapsule>, order: seq<Bytes>, offset: int, limit: int, maxCount: nat)
    returns (r: Option<seq<FutureTokenPackCapsule>>)
    requires IterationOrder(store, order)
    ensures r == Pagination.Paginate(GetAllTokens(store, order), offset, limit, DealsCountOrder, maxCount)
  {
    var all := GetAllTokens(store, order);
    var tokenList := new FutureTokenPackCapsule[|all|](i requires 0 <= i < |all| => all[i]);
    assert tokenList[..] == all;
    r := Pagination.GetTokenPaginated(tokenList, offset, limit, DealsCountOrder, maxCount);
  }

  /** A page of the table is non-decreasing in deal count, and holds only packs
      of the table. */
  lemma PageSortedByDealsCount(store: map<Bytes, FutureTokenPackCapsule>, order: seq<Bytes>, offset: int, limit: int, maxCount: nat)
    requires IterationOrder(store, order)
    requires Pagination.Paginate(GetAllTokens(store, order), offset, limit, DealsCountOrder, maxCount).Some?
    ensures var page := Pagination.Paginate(GetAllTokens(store, order), offset, limit, DealsCountOrder, maxCount).value;
      && (forall i, j :: 0 <= i < j < |page| ==> page[i].dealsCount <= page[j].dealsCount)
      && (forall t :: t in page ==> t in store.Values)
  {
    var all := GetAllTokens(store, order);
    DealsCountOrderIsTotalPreorder();
    Pagination.PageSorted(all, offset, limit, DealsCountOrder, maxCount);
    forall t | t in Pagination.Paginate(all, offset, limit, DealsCountOrder, maxCount).value ensures t in store.Values {
      Pagination.PageMembersFromInput(all, offset, limit, DealsCountOrder, maxCount, t);
    }
  }
}
