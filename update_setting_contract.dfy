/** The actuator that changes a deployed contract's user-resource percentage
    (actuator/UpdateSettingContractActuator.java). */
module UpdateSettingContract {
  import opened Wrappers
  import opened ByteKeys
  import opened Ledger

  /** The decoded UpdateSettingContract message; its fields have no presence bits,
      an unset one reads as its default. */
  datatype UpdateSettingMsg = UpdateSettingMsg(
    ownerAddress: Bytes,
    contractAddress: Bytes,
    consumeUserResourcePercent: int)

  /** Why validation rejects the operation, one reason per check. */
  datatype ValidateError =
    | ContractTypeError
    | InvalidAddress
    | AccountNotExists
    | PercentOutOfRange
    | ContractNotExists
    | NotOwnerOfContract

  /** `calcFee`: this operation costs nothing. */
  function CalcFee(): (r: int)
    ensures r == 0
  {
    0
  }

  /** `getOwnerAddress`: the owner field of the unpacked message, or the unpacking error. */
  function GetOwnerAddress(contract: Packed<UpdateSettingMsg>): (r: Result<Bytes, Fault>)
    ensures r.Failure? <==> contract.Undecodable?
    ensures r.Failure? ==> r.error == InvalidProtocolBuffer
    ensures r.Success? ==> r.value == contract.msg.ownerAddress
  {
    match contract
    case Undecodable => Failure(InvalidProtocolBuffer)
    case Packed(msg) => Success(msg.ownerAddress)
  }

  /** `validate`: address, account, percent, contract existence, ownership, in that
      order; `addressValid` is `Wallet.addressValid`. Being a function, it cannot
      write any table. */
  function Validate(contract: Packed<UpdateSettingMsg>, db: Manager, addressValid: Bytes -> bool)
    : (r: Outcome<ValidateError>)
    reads db
    ensures r.Pass? ==>
      && contract.Packed?
      && contract.msg.contractAddress in db.contracts
      && db.contracts[contract.msg.contractAddress].originAddress == contract.msg.ownerAddress
  {
    if contract.Undecodable? then Fail(ContractTypeError)
    else
      var msg := contract.msg;
      if !addressValid(msg.ownerAddress) then Fail(InvalidAddress)
      else if msg.ownerAddress !in db.accounts then Fail(AccountNotExists)
      else if msg.consumeUserResourcePercent > 100 || msg.consumeUserResourcePercent < 0 then Fail(PercentOutOfRange)
      else if msg.contractAddress !in db.contracts then Fail(ContractNotExists)
      else if msg.ownerAddress != db.contracts[msg.contractAddress].originAddress then Fail(NotOwnerOfContract)
      else Pass
  }

  /** The checks in order: each rejects with its own reason once the ones before
      it have passed, so the first failing check decides. */
  lemma ValidateCheckOrder(contract: Packed<UpdateSettingMsg>, db: Manager, addressValid: Bytes -> bool)
    requires contract.Packed?
    ensures var msg, v := contract.msg, Validate(contract, db, addressValid);
      && (!addressValid(msg.ownerAddress) ==> v == Fail(InvalidAddress))
      && ((addressValid(msg.ownerAddress) && msg.ownerAddress !in db.accounts) ==> v == Fail(AccountNotExists))
      && ((addressValid(msg.ownerAddress) && msg.ownerAddress in db.accounts
           && !(0 <= msg.consumeUserResourcePercent <= 100)) ==> v == Fail(PercentOutOfRange))
      && ((addressValid(msg.ownerAddress) && msg.ownerAddress in db.accounts
           && 0 <= msg.consumeUserResourcePercent <= 100
           && msg.contractAddress !in db.contracts) ==> v == Fail(ContractNotExists))
      && ((addressValid(msg.ownerAddress) && msg.ownerAddress in db.accounts
           && 0 <= msg.consumeUserResourcePercent <= 100
           && msg.contractAddress in db.contracts
           && msg.ownerAddress != db.contracts[msg.contractAddress].originAddress) ==> v == Fail(NotOwnerOfContract))
  {
  }

  /** Validation accepts exactly when every check passes. */
  lemma ValidateAcceptsExactly(contract: Packed<UpdateSettingMsg>, db: Manager, addressValid: Bytes -> bool)
    ensures Validate(contract, db, addressValid).Pass? <==>
      && contract.Packed?
      && addressValid(contract.msg.ownerAddress)
      && contract.msg.ownerAddress in db.accounts
      && 0 <= contract.msg.consumeUserResourcePercent <= 100
      && contract.msg.contractAddress in db.contracts
      && db.contracts[contract.msg.contractAddress].originAddress == contract.msg.ownerAddress
  {
  }

  /** What `execute` needs to run to the end: the message unpacks, the contract
      exists, and the owner's account can be charged the (zero) fee. */
  ghost predicate Executable(contract: Packed<UpdateSettingMsg>, db: Manager)
    reads db
  {
    && contract.Packed?
    && contract.msg.contractAddress in db.contracts
    && Debit(db.accounts, contract.msg.ownerAddress, CalcFee()).Some?
  }

  /** On a ledger with no overdrawn account, validation covers everything execution
      relies on, and the percentage it will store lies in [0, 100]. */
  lemma ValidatedIsExecutable(contract: Packed<UpdateSettingMsg>, db: Manager, addressValid: Bytes -> bool)
    requires Solvent(db.accounts)
    requires Validate(contract, db, addressValid).Pass?
    ensures Executable(contract, db)
    ensures 0 <= contract.msg.consumeUserResourcePercent <= 100
  {
    ValidateAcceptsExactly(contract, db, addressValid);
  }

  /** `execute`: rewrites the contract with the new percentage, then charges the fee.
      Unpacking and balance failures are recorded as FAILED and raised again as
      ContractExeException; a missing contract is dereferenced as null, an exception
      the method does not catch, so the result sink is left as it was. */
  method Execute(contract: Packed<UpdateSettingMsg>, db: Manager, ret: TransactionResultCapsule)
    returns (r: ExecOutcome)
    modifies db`contracts, db`accounts, ret
    ensures r.Executed? <==> old(Executable(contract, db))
    ensures r.UncaughtException? ==> unchanged(ret)
    ensures !r.UncaughtException? ==>
      ret.fee == CalcFee() && ret.status == if r.Executed? then SUCESS else FAILED
    ensures contract.Undecodable? ==>
      r == ContractExeException(InvalidProtocolBuffer)
      && db.contracts == old(db.contracts) && db.accounts == old(db.accounts)
    ensures contract.Packed? && contract.msg.contractAddress !in old(db.contracts) ==>
      r == UncaughtException(NullPointer)
      && db.contracts == old(db.contracts) && db.accounts == old(db.accounts)
    ensures contract.Packed? && contract.msg.contractAddress in old(db.contracts) ==>
      var address := contract.msg.contractAddress;
      && db.contracts == old(db.contracts)[address := old(db.contracts)[address]
                           .(consumeUserResourcePercent := contract.msg.consumeUserResourcePercent)]
      && db.accounts == Debit(old(db.accounts), GetOwnerAddress(contract).value, CalcFee()).GetOr(old(db.accounts))
      && (r.Executed? || r == ContractExeException(BalanceInsufficient))
    ensures old(Solvent(db.accounts)) ==> Solvent(db.accounts)
  {
    var fee := CalcFee();
    if contract.Undecodable? {
      ret.SetStatus(fee, FAILED);
      return ContractExeException(InvalidProtocolBuffer);
    }
    var usContract := contract.msg;
    var ownerAddress := usContract.ownerAddress;
    var newPercent := usContract.consumeUserResourcePercent;
    var contractAddress := usContract.contractAddress;
    if contractAddress !in db.contracts {
      return UncaughtException(NullPointer);
    }
    var deployedContract := db.contracts[contractAddress];
    db.contracts := db.contracts[contractAddress := deployedContract.(consumeUserResourcePercent := newPercent)];
    var charged := db.ChargeFee(ownerAddress, fee);
    if !charged {
      ret.SetStatus(fee, FAILED);
      return ContractExeException(BalanceInsufficient);
    }
    ret.SetStatus(fee, SUCESS);
    return Executed;
  }
}
