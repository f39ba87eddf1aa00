/** The token-issue table (db/TokenStore.java): its full scan and its pages,
    sorted by token name. */
module TokenStore {
  import opened Wrappers
  import opened ByteKeys
  import Lexicographic
  import opened StableSort
  import opened Tables
  import Pagination

  /** A created token; the fields other than the name do not matter here and are
      kept as their encoded bytes. */
  datatype CreateTokenCapsule = CreateTokenCapsule(name: string, otherFields: Bytes)

  /** The characters of a name by their code values, as `String.compareTo` compares them. */
  function Codes(s: string): (r: seq<int>)
    ensures |r| == |s| && forall i :: 0 <= i < |s| ==> r[i] == s[i] as int
  {
    seq(|s|, i requires 0 <= i < |s| => s[i] as int)
  }

  /** `Comparator.comparing(o -> o.getName().toStringUtf8())`: `a` may come before `b`. */
  predicate NameOrder(a: CreateTokenCapsule, b: CreateTokenCapsule) {
    Lexicographic.Compare(Codes(a.name), Codes(b.name)) <= 0
  }

  lemma NameOrderIsTotalPreorder()
    ensures TotalPreorder(NameOrder)
  {
    forall a: CreateTokenCapsule, b: CreateTokenCapsule ensures NameOrder(a, b) || NameOrder(b, a) {
      Lexicographic.CompareAntisymmetric(Codes(a.name), Codes(b.name));
    }
    forall a: CreateTokenCapsule, b: CreateTokenCapsule, c: CreateTokenCapsule | NameOrder(a, b) && NameOrder(b, c)
      ensures NameOrder(a, c)
    {
      Lexicographic.CompareTransitive(Codes(a.name), Codes(b.name), Codes(c.name));
    }
  }

  /** `getAllTokens`: every token of the table once, in iteration order. */
  function GetAllTokens(store: map<Bytes, CreateTokenCapsule>, order: seq<Bytes>): (r: seq<CreateTokenCapsule>)
    requires IterationOrder(store, order)
    ensures |r| == |store| == |order|
    ensures forall i :: 0 <= i < |r| ==> r[i] == store[order[i]]
    ensures forall k :: k in store ==> store[k] in r
    ensures forall t :: t in r ==> t in store.Values
  {
    AllValues(store, order)
  }

  /** The public `getTokenPaginated(offset, limit)`: pages a fresh full scan;
      `maxCount` is the protocol's TOKEN_ISSUE_COUNT_LIMIT_MAX. */
  method GetTokenPaginated(store: map<Bytes, CreateTokenCapsule>, order: seq<Bytes>, offset: int, limit: int, maxCount: nat)
    returns (r: Option<seq<CreateTokenCapsule>>)
    requires IterationOrder(store, order)
    ensures r == Pagination.Paginate(GetAllTokens(store, order), offset, limit, NameOrder, maxCount)
  {
    var all := GetAllTokens(store, order);
    var tokenList := new CreateTokenCapsule[|all|](i requires 0 <= i < |all| => all[i]);
    assert tokenList[..] == all;
    r := Pagination.GetTokenPaginated(tokenList, offset, limit, NameOrder, maxCount);
  }

  /** A page of the table is sorted by name, and holds only tokens of the table. */
  lemma PageSortedByName(store: map<Bytes, CreateTokenCapsule>, order: seq<Bytes>, offset: int, limit: int, maxCount: nat)
    requires IterationOrder(store, order)
    requires Pagination.Paginate(GetAllTokens(store, order), offset, limit, NameOrder, maxCount).Some?
    ensures var page := Pagination.Paginate(GetAllTokens(store, order), offset, limit, NameOrder, maxCount).value;
      && (forall i, j :: 0 <= i < j < |page| ==> Lexicographic.Compare(Codes(page[i].name), Codes(page[j].name)) <= 0)
      && (forall t :: t in page ==> t in store.Values)
  {
    var all := GetAllTokens(store, order);
    NameOrderIsTotalPreorder();
    Pagination.PageSorted(all, offset, limit, NameOrder, maxCount);
    forall t | t in Pagination.Paginate(all, offset, limit, NameOrder, maxCount).value ensures t in store.Values {
      Pagination.PageMembersFromInput(all, offset, limit, NameOrder, maxCount, t);
    }
  }
}
