# Token-parameter and contract-setting actuators, token paging and byte keys

A Dafny model of four small pieces of a blockchain full node's state-transition core:

- **TokenUpdateParams**: the actuator that changes a token pool's transfer fee, extra fee
  rate and lot size. `Validate` is the read-only guard chain over the account and token-pool
  tables, the head block's time and the message's presence bits. `Execute` is the
  read-modify-write of one pool, followed by the fee debit (half the asset-issue fee) and the
  status recorded in the result sink.
- **UpdateSettingContract**: the actuator that changes a deployed contract's
  user-resource percentage. Only the contract's origin address may do this, and it costs no fee.
- **TokenStore / FutureTokenPackStore**: the full scan of a table and its bounded, sorted
  pages. Token-issue entries are sorted by name, future-token packs by deal count.
- **ByteKeys**: `ByteArrayWrapper`, the content-keyed byte-array wrapper. Its equality is
  "comparison is 0", and its hash is fixed at construction.

The tables are finite maps held in fields of the `Ledger.Manager` class, which the executions
update in place. The result sink is the class `Ledger.TransactionResultCapsule`. The validations
are functions, so they cannot write any table. The other inputs are parameters:

- the head block's time and the asset-issue fee are fields of `Manager` that no operation changes;
- the protocol maxima are parameters;
- the address check and the upper-casing key conversion are function parameters;
- the iteration order of a table is a parameter.

`List.sort` is modelled by `StableSort.SortInPlace`, an in-place stable insertion sort on an
array. It is proved equal to the specification function `StableSort.InsertionSorted`. Any stable
sort under a comparator that keeps its contract gives the same list.

Behaviours of the code that the model keeps, though a reader might expect otherwise:

- On a post-validation failure, the fee is recorded in the result sink but not necessarily
  debited. A failed debit changes no account, and a failed unpack happens before any write.
- The store write done before a failing debit is not undone by the actuator.
- In UpdateSettingContract, a missing contract causes a null dereference that the method does
  not catch. The result sink is then left untouched, instead of being marked FAILED.
- Validation checks the balance before it looks up the token pool.

## Model

| member | source | states |
|---|---|---|
| `TokenUpdateParams.CalcFee` | src/main/java/org/unichain/core/actuator/TokenUpdateParamsActuator.java:140-142 | the fee is half the asset-issue fee, rounded toward zero as Java `long` division does; it depends on that property alone |
| `TokenUpdateParams.GetOwnerAddress` | src/main/java/org/unichain/core/actuator/TokenUpdateParamsActuator.java:135-137 | fails with the unpacking error exactly when the payload does not unpack; otherwise yields the owner field, or the empty byte string when the owner is unset |
| `TokenUpdateParams.Validate` | src/main/java/org/unichain/core/actuator/TokenUpdateParamsActuator.java:86-131 | an accepted operation unpacks, names an existing pool, and its present fields are in range |
| `TokenUpdateParams.ValidateAcceptsExactly` | src/main/java/org/unichain/core/actuator/TokenUpdateParamsActuator.java:86-131 | validation passes iff: the message unpacks; owner and name are present; the owner account exists and covers `CalcFee`; the pool exists; start ≤ head time < end; every present field is in range |
| `TokenUpdateParams.ValidateRejects` | src/main/java/org/unichain/core/actuator/TokenUpdateParamsActuator.java:94-124 | each guard alone rejects: missing owner or name, unknown owner account, balance below the fee, unknown pool, time outside [start, end), a present field out of range |
| `TokenUpdateParams.ValidateReportsExpiryFirst` | src/main/java/org/unichain/core/actuator/TokenUpdateParamsActuator.java:108-110 | once the earlier guards pass, a head time at or past the pool's end is rejected as expired, whatever its start time |
| `TokenUpdateParams.ApplyParams` | src/main/java/org/unichain/core/actuator/TokenUpdateParamsActuator.java:59-72 | fee, extra fee rate and lot take the message's value exactly when that field is present; every other pool field is kept |
| `TokenUpdateParams.ApplyParamsKeepsInvariant` | src/main/java/org/unichain/core/actuator/TokenUpdateParamsActuator.java:112-124 | an update whose present fields pass the range checks keeps the pool invariant: fee in [0, max], rate in [0, min(100, max rate)], lot ≥ 0 |
| `TokenUpdateParams.ApplyParamsIdempotent` | src/main/java/org/unichain/core/actuator/TokenUpdateParamsActuator.java:60-70 | applying the same update twice equals applying it once |
| `TokenUpdateParams.ValidatedIsExecutable` | src/main/java/org/unichain/core/actuator/TokenUpdateParamsActuator.java:98-124 | after a passing validation, execution cannot fault (pool present, owner can pay the same fee), and a pool that met the invariant still meets it after the update |
| `TokenUpdateParams.Execute` | src/main/java/org/unichain/core/actuator/TokenUpdateParamsActuator.java:51-83 | records `CalcFee` with SUCESS or FAILED; succeeds iff executable; writes only the updated pool under its key and debits exactly the fee from the owner; unpack failure or missing pool changes nothing; every fault is caught and re-raised |
| `UpdateSettingContract.CalcFee` | src/main/java/org/unichain/core/actuator/UpdateSettingContractActuator.java:116-118 | the fee is 0 |
| `UpdateSettingContract.GetOwnerAddress` | src/main/java/org/unichain/core/actuator/UpdateSettingContractActuator.java:111-113 | fails with the unpacking error exactly when the payload does not unpack; otherwise yields the owner address |
| `UpdateSettingContract.Validate` | src/main/java/org/unichain/core/actuator/UpdateSettingContractActuator.java:51-108 | an accepted operation targets an existing contract whose recorded origin address is byte-for-byte the owner address |
| `UpdateSettingContract.ValidateCheckOrder` | src/main/java/org/unichain/core/actuator/UpdateSettingContractActuator.java:71-105 | checks run in the order address, account, percent ∈ [0, 100], contract existence, ownership; the first failing check names the rejection |
| `UpdateSettingContract.ValidateAcceptsExactly` | src/main/java/org/unichain/core/actuator/UpdateSettingContractActuator.java:65-107 | validation passes iff the message unpacks, the address is valid, the account exists, the percent is in [0, 100], the contract exists and its origin is the owner |
| `UpdateSettingContract.ValidatedIsExecutable` | src/main/java/org/unichain/core/actuator/UpdateSettingContractActuator.java:79-105 | on a ledger with no overdrawn account, validation rules out every execution fault, and the stored percent lies in [0, 100] |
| `UpdateSettingContract.Execute` | src/main/java/org/unichain/core/actuator/UpdateSettingContractActuator.java:30-48 | replaces only the percent of the target contract; charges fee 0 and records SUCESS or FAILED; a missing contract escapes uncaught with the sink and tables untouched |
| `Ledger.Debit` | src/main/java/org/unichain/core/actuator/TokenUpdateParamsActuator.java:74 | refused iff the account is missing or cannot cover the fee; otherwise only that balance drops, by exactly the fee, and solvency is kept |
| `Ledger.Manager.ChargeFee` | src/main/java/org/unichain/core/actuator/UpdateSettingContractActuator.java:40 | reports whether the debit happened, and on refusal leaves every account as it was |
| `Ledger.TransactionResultCapsule.SetStatus` | src/main/java/org/unichain/core/actuator/TokenUpdateParamsActuator.java:75 | the sink holds exactly the given fee and status |
| `ByteKeys.New` | src/main/java/org/unichain/core/capsule/utils/ByteArrayWrapper.java:16-22 | null data is rejected; otherwise the wrapper keeps the data unchanged (`GetData`) with the hash computed from it |
| `ByteKeys.ArraysHashCode` | src/main/java/org/unichain/core/capsule/utils/ByteArrayWrapper.java:21 | the hash is a 32-bit Java `int` computed from the content alone |
| `ByteKeys.Equals` | src/main/java/org/unichain/core/capsule/utils/ByteArrayWrapper.java:24-32 | true exactly when the other object is a wrapper holding the same bytes; false for any other object |
| `ByteKeys.CompareTo` | src/main/java/org/unichain/core/capsule/utils/ByteArrayWrapper.java:39-44 | the comparison is 0 exactly when the two wrappers hold the same bytes |
| `ByteKeys.HashCode` | src/main/java/org/unichain/core/capsule/utils/ByteArrayWrapper.java:34-37 | for a constructed wrapper, the hash is `Arrays.hashCode` of its content, a 32-bit `int` |
| `ByteKeys.GetData` | src/main/java/org/unichain/core/capsule/utils/ByteArrayWrapper.java:46-48 | the returned content hashes to the wrapper's own hash (and, by `New`, is the data it was built from) |
| `ByteKeys.EqualsImpliesSameHash` | src/main/java/org/unichain/core/capsule/utils/ByteArrayWrapper.java:34-37 | equal wrappers built by the constructor have equal hashes |
| `ByteKeys.NewContentKeyed` | src/main/java/org/unichain/core/capsule/utils/ByteArrayWrapper.java:16-32 | wrappers built from two byte sequences are equal iff the sequences are; equal contents give equal hashes |
| `ByteKeys.CompareToConsistentWithEquals` | src/main/java/org/unichain/core/capsule/utils/ByteArrayWrapper.java:40-44 | compareTo is 0 exactly when equals holds |
| `ByteKeys.CompareToReflexive` | src/main/java/org/unichain/core/capsule/utils/ByteArrayWrapper.java:40-44 | a wrapper compared with itself gives 0 |
| `ByteKeys.CompareToAntisymmetric` | src/main/java/org/unichain/core/capsule/utils/ByteArrayWrapper.java:40-44 | swapping the arguments negates the comparison |
| `ByteKeys.CompareToTransitive` | src/main/java/org/unichain/core/capsule/utils/ByteArrayWrapper.java:40-44 | "compares at most" is transitive |
| `ByteKeys.EqualsIsEquivalence` | src/main/java/org/unichain/core/capsule/utils/ByteArrayWrapper.java:24-32 | equals is reflexive, symmetric and transitive |
| `StableSort.SortInPlace` | src/main/java/org/unichain/core/db/TokenStore.java:45 | after sorting in place, the array holds the stable insertion sort of its old contents |
| `StableSort.InsertionSortedPermutes` | src/main/java/org/unichain/core/db/TokenStore.java:45 | the sorted list is a permutation of the input |
| `StableSort.InsertionSortedIsSorted` | src/main/java/org/unichain/core/db/FutureTokenPackStore.java:45 | under a comparator forming a total preorder, the sorted list is ordered |
| `Pagination.Paginate` | src/main/java/org/unichain/core/db/FutureTokenPackStore.java:38-49 | the page exists iff 0 ≤ offset < size and limit ≥ 0; its length is min(min(limit, max), size − offset) |
| `Pagination.GetTokenPaginated` | src/main/java/org/unichain/core/db/FutureTokenPackStore.java:37-50 | returns `Paginate` of the old list; afterwards the caller's list is sorted in place when the arguments were valid, and unchanged otherwise |
| `Pagination.PageBounds` | src/main/java/org/unichain/core/db/FutureTokenPackStore.java:46-49 | a page holds no more than the maximum or the limit, and its window ends inside the list |
| `Pagination.ZeroLimitGivesEmptyPage` | src/main/java/org/unichain/core/db/FutureTokenPackStore.java:42-49 | a zero limit with a valid offset gives an empty page, not an absent one |
| `Pagination.PageSorted` | src/main/java/org/unichain/core/db/FutureTokenPackStore.java:45 | every page is ordered by the comparator |
| `Pagination.PageFromInput` | src/main/java/org/unichain/core/db/FutureTokenPackStore.java:45-49 | a page is the slice [offset, end) of a permutation of the input, and no element occurs in it more often than in the input |
| `Pagination.PageMembersFromInput` | src/main/java/org/unichain/core/db/TokenStore.java:45-49 | every element of a page comes from the input |
| `Pagination.ConsecutivePages` | src/main/java/org/unichain/core/db/TokenStore.java:46-49 | a page of n elements followed by the page at offset + n is the page of n + m elements, within the maximum |
| `Tables.AllValues` | src/main/java/org/unichain/core/db/TokenStore.java:31-35 | the scan lists one value per key, in iteration order, and misses no value |
| `TokenStore.GetAllTokens` | src/main/java/org/unichain/core/db/TokenStore.java:31-35 | the scan lists, in iteration order, the token stored under each key (one entry per key), so it holds exactly the table's tokens |
| `TokenStore.GetTokenPaginated` | src/main/java/org/unichain/core/db/TokenStore.java:52-54 | the public call is the page, sorted by name, of a fresh scan |
| `TokenStore.NameOrderIsTotalPreorder` | src/main/java/org/unichain/core/db/TokenStore.java:45 | the comparison by token name is total and transitive |
| `TokenStore.PageSortedByName` | src/main/java/org/unichain/core/db/TokenStore.java:45-49 | every page of the table is non-decreasing by name and holds only the table's tokens |
| `FutureTokenPackStore.GetAllTokens` | src/main/java/org/unichain/core/db/FutureTokenPackStore.java:31-35 | the scan lists, in iteration order, the pack stored under each key (one entry per key), so it holds exactly the table's packs |
| `FutureTokenPackStore.GetTokenPaginated` | src/main/java/org/unichain/core/db/FutureTokenPackStore.java:52-54 | the public call is the page, sorted by deal count, of a fresh scan |
| `FutureTokenPackStore.DealsCountOrderIsTotalPreorder` | src/main/java/org/unichain/core/db/FutureTokenPackStore.java:45 | the comparison by deal count is total and transitive |
| `FutureTokenPackStore.PageSortedByDealsCount` | src/main/java/org/unichain/core/db/FutureTokenPackStore.java:45-49 | every page of the table is non-decreasing in deal count and holds only the table's packs |

## Left out

- ByteKeys.New: the constructor keeps the caller's array without copying it, and `getData` hands back that same array. A caller that changes the array after construction changes what `equals` and `compareTo` see, while `hashCode` keeps the old value. The model's content is an immutable sequence, so `ByteKeys.EqualsImpliesSameHash` and `ByteKeys.NewContentKeyed` hold only for callers that never change the array.
- The HTTP servlets (reward, exchange by id, mine token): request and response plumbing over services that are not part of this model.
- The revoking store backend (layers, snapshot, revert, commit, `getUnchecked`) is not part of this model. Each table is a plain map, and a table's iteration order is a parameter.
- Protobuf decoding: a payload either unpacks or it does not. `contract.is(...)` and `unpack` failures are one case, reported as ContractTypeError in validation.
- The `contract == null` and `dbManager == null` guards: references in the model are never null.
- Log output, message texts, `Utils.formatDateLong`, `StringUtil.createReadableString` and `ByteArrayWrapper.toString`: they only format text.
- `Wallet.addressValid` and `Util.stringAsBytesUppercase` are not part of this model. They are function parameters, and the same key function is used in validation and execution.
- `chargeFee` is not part of this model. `Ledger.Manager.ChargeFee` stands in for it: it debits the owner, and fails without change when the account is missing or cannot cover the fee. Any burning or crediting of the fee elsewhere is not modelled.
- ByteKeys.CompareTo: `FastByteComparisons` is not part of this model. It is taken to be unsigned lexicographic comparison, returning the first byte difference or the length difference. Only the sign of the result is relied on.
- TokenStore.NameOrderIsTotalPreorder: a token name is stored as bytes and decoded with `toStringUtf8()` before it is compared; the model's `name: string` starts after that decoding. Malformed UTF-8 decodes to U+FFFD, so two different byte names can compare equal in the code; the model does not capture that. Names are compared by Dafny characters (Unicode scalar values), not by UTF-16 code units as `String.compareTo` does. The two orders differ only for characters outside the Basic Multilingual Plane.
- StableSort.SortInPlace: the sort is stable by construction, but stability is not stated as a separate property.
- TokenUpdateParams.Execute: when the pool is missing, an update with no present field hands null to `put`. `TokenPoolStore.put` is not part of this model, so this case is modelled as the same fault as the null dereference. A store that silently skipped a null `put` would instead let this path succeed and charge the fee; the model does not cover that behaviour.
- Java `long` and `int` widths in balances, fees and page arithmetic are unbounded integers. No computation in the modelled code can overflow, except a debit by a negative fee, which needs a negative asset-issue fee.
