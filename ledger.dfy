/** The chain state the actuators read and write: the account, token-pool and
    deployed-contract tables of the database manager, its dynamic properties, the
    fee debit, and the result sink an execution reports to. */
module Ledger {
  import opened Wrappers
  import opened ByteKeys

  /** An account; only its balance matters here, the rest is kept as encoded bytes. */
  datatype Account = Account(balance: int, otherFields: Bytes)

  /** A token pool, under the key of its upper-cased name. */
  datatype TokenPool = TokenPool(
    fee: int,
    extraFeeRate: int,
    lot: int,
    startTime: int,
    endTime: int,
    otherFields: Bytes)

  /** A deployed smart contract. */
  datatype DeployedContract = DeployedContract(
    originAddress: Bytes,
    consumeUserResourcePercent: int,
    otherFields: Bytes)

  /** A packed operation payload (a protobuf `Any`): either it unpacks to the
      expected message type, or it does not (wrong type or malformed bytes). */
  datatype Packed<C> = Packed(msg: C) | Undecodable

  /** The status code recorded in the result sink, spelled as in the protocol. */
  datatype Code = SUCESS | FAILED

  /** The exceptions that can arise while executing. */
  datatype Fault = InvalidProtocolBuffer | NullPointer | BalanceInsufficient

  /** How `execute` ends: it returns, it raises ContractExeException (after setting
      the result to FAILED), or an exception it does not catch escapes it. */
  datatype ExecOutcome = Executed | ContractExeException(cause: Fault) | UncaughtException(cause: Fault)

  /** No account is overdrawn. */
  ghost predicate Solvent(accounts: map<Bytes, Account>) {
    forall a :: a in accounts ==> accounts[a].balance >= 0
  }

  /** Debiting `fee` from `owner`: refused when the account is missing or cannot
      cover the fee; otherwise only that account's balance goes down, by the fee. */
  function Debit(accounts: map<Bytes, Account>, owner: Bytes, fee: int): (r: Option<map<Bytes, Account>>)
    ensures r.Some? <==> owner in accounts && accounts[owner].balance >= fee
    ensures r.Some? ==>
      && r.value.Keys == accounts.Keys
      && r.value[owner].balance == accounts[owner].balance - fee
      && r.value[owner].otherFields == accounts[owner].otherFields
      && (forall a :: a in accounts && a != owner ==> r.value[a] == accounts[a])
    ensures r.Some? && Solvent(accounts) ==> Solvent(r.value)
  {
    if owner in accounts && accounts[owner].balance >= fee then
      Some(accounts[owner := accounts[owner].(balance := accounts[owner].balance - fee)])
    else None
  }

  /** The database manager: the tables as finite maps, plus the head block's
      timestamp and the dynamic asset-issue fee. */
  class Manager {
    var accounts: map<Bytes, Account>
    var tokenPools: map<Bytes, TokenPool>
    var contracts: map<Bytes, DeployedContract>
    var headBlockTimeStamp: int
    var assetIssueFee: int

    /** `chargeFee(owner, fee)`: debits the owner or fails without touching any account. */
    method ChargeFee(owner: Bytes, fee: int) returns (ok: bool)
      modifies this`accounts
      ensures ok <==> Debit(old(accounts), owner, fee).Some?
      ensures accounts == Debit(old(accounts), owner, fee).GetOr(old(accounts))
    {
      var debited := Debit(accounts, owner, fee);
      ok := debited.Some?;
      if ok {
        accounts := debited.value;
      }
    }
  }

  /** The result sink of one transaction. */
  class TransactionResultCapsule {
    var fee: int
    var status: Code

    method SetStatus(fee: int, status: Code)
      modifies this
      ensures this.fee == fee && this.status == status
    {
      this.fee := fee;
      this.status := status;
    }
  }
}
