/** The actuator that updates a token pool's transfer parameters
    (actuator/TokenUpdateParamsActuator.java). */
module TokenUpdateParams {
  import opened Wrappers
  import opened ByteKeys
  import opened Ledger

  /** The decoded UpdateTokenParamsContract. A field is None exactly when its
      presence bit is unset, so an absent field stays distinct from a zero one. */
  datatype UpdateTokenParamsContract = UpdateTokenParamsContract(
    ownerAddress: Option<Bytes>,
    tokenName: Option<string>,
    amount: Option<int>,
    extraFeeRate: Option<int>,
    lot: Option<int>)

  /** The protocol maxima TOKEN_MAX_TRANSFER_FEE and TOKEN_MAX_TRANSFER_FEE_RATE. */
  datatype TransferLimits = TransferLimits(maxTransferFee: nat, maxTransferFeeRate: nat)

  /** Why validation rejects the operation, one reason per guard. */
  datatype ValidateError =
    | ContractTypeError
    | MissingOwnerAddress
    | MissingTokenName
    | InvalidOwnerAddress
    | NotEnoughBalance
    | TokenNameNotExist
    | TokenExpired
    | TokenPendingToStart
    | InvalidFeeAmount
    | InvalidLot
    | InvalidExtraFeeRate

  /** `calcFee`: half the asset-issue fee, in Java's `long` division, which
      rounds toward zero. */
  function CalcFee(assetIssueFee: int): (r: int)
    ensures assetIssueFee >= 0 ==> 0 <= 2 * r <= assetIssueFee < 2 * r + 2
    ensures assetIssueFee < 0 ==> 2 * r - 2 < assetIssueFee <= 2 * r <= 0
  {
    if assetIssueFee >= 0 then assetIssueFee / 2 else -((-assetIssueFee) / 2)
  }

  /** `getOwnerAddress`: the owner field of the unpacked message (empty when unset),
      or the unpacking error. */
  function GetOwnerAddress(contract: Packed<UpdateTokenParamsContract>): (r: Result<Bytes, Fault>)
    ensures r.Failure? <==> contract.Undecodable?
    ensures r.Failure? ==> r.error == InvalidProtocolBuffer
    ensures r.Success? && contract.msg.ownerAddress.Some? ==> r.value == contract.msg.ownerAddress.value
    ensures r.Success? && contract.msg.ownerAddress.None? ==> r.value == []
  {
    match contract
    case Undecodable => Failure(InvalidProtocolBuffer)
    case Packed(ctx) => Success(ctx.ownerAddress.GetOr([]))
  }

  /** The key the token-pool table files a token under (`Util.stringAsBytesUppercase`
      of the name, empty when unset); `keyOf` is that conversion. */
  function TokenKey(ctx: UpdateTokenParamsContract, keyOf: string -> Bytes): (r: Bytes) {
    keyOf(ctx.tokenName.GetOr(""))
  }

  /** The parameter checks on the fields that are present; absent ones pass. */
  predicate ParamsInRange(ctx: UpdateTokenParamsContract, limits: TransferLimits) {
    && (ctx.amount.Some? ==> 0 <= ctx.amount.value <= limits.maxTransferFee)
    && (ctx.lot.Some? ==> ctx.lot.value >= 0)
    && (ctx.extraFeeRate.Some? ==>
          0 <= ctx.extraFeeRate.value <= 100 && ctx.extraFeeRate.value <= limits.maxTransferFeeRate)
  }

  /** `validate`: the guards in the order `validate` checks them; the first that fails names the rejection.
      Being a function, it cannot write any table. */
  function Validate(contract: Packed<UpdateTokenParamsContract>, db: Manager, limits: TransferLimits,
                    keyOf: string -> Bytes): (r: Outcome<ValidateError>)
    reads db
    ensures r.Pass? ==>
      && contract.Packed?
      && TokenKey(contract.msg, keyOf) in db.tokenPools
      && ParamsInRange(contract.msg, limits)
  {
    if contract.Undecodable? then Fail(ContractTypeError)
    else
      var ctx := contract.msg;
      if ctx.ownerAddress.None? then Fail(MissingOwnerAddress)
      else if ctx.tokenName.None? then Fail(MissingTokenName)
      else if ctx.ownerAddress.value !in db.accounts then Fail(InvalidOwnerAddress)
      else if db.accounts[ctx.ownerAddress.value].balance < CalcFee(db.assetIssueFee) then Fail(NotEnoughBalance)
      else if keyOf(ctx.tokenName.value) !in db.tokenPools then Fail(TokenNameNotExist)
      else
        var pool := db.tokenPools[keyOf(ctx.tokenName.value)];
        if !(db.headBlockTimeStamp < pool.endTime) then Fail(TokenExpired)
        else if !(db.headBlockTimeStamp >= pool.startTime) then Fail(TokenPendingToStart)
        else if ctx.amount.Some? && !(ctx.amount.value >= 0 && ctx.amount.value <= limits.maxTransferFee) then
          Fail(InvalidFeeAmount)
        else if ctx.lot.Some? && !(ctx.lot.value >= 0) then Fail(InvalidLot)
        else if ctx.extraFeeRate.Some?
             && !(ctx.extraFeeRate.value >= 0 && ctx.extraFeeRate.value <= 100
                  && ctx.extraFeeRate.value <= limits.maxTransferFeeRate) then
          Fail(InvalidExtraFeeRate)
        else Pass
  }

  /** What an accepted operation satisfies, stated as one condition. */
  ghost predicate Acceptable(contract: Packed<UpdateTokenParamsContract>, db: Manager, limits: TransferLimits,
                             keyOf: string -> Bytes)
    reads db
  {
    && contract.Packed?
    && contract.msg.ownerAddress.Some?
    && contract.msg.tokenName.Some?
    && contract.msg.ownerAddress.value in db.accounts
    && db.accounts[contract.msg.ownerAddress.value].balance >= CalcFee(db.assetIssueFee)
    && TokenKey(contract.msg, keyOf) in db.tokenPools
    && db.tokenPools[TokenKey(contract.msg, keyOf)].startTime <= db.headBlockTimeStamp
    && db.headBlockTimeStamp < db.tokenPools[TokenKey(contract.msg, keyOf)].endTime
    && ParamsInRange(contract.msg, limits)
  }

  /** Validation accepts exactly the acceptable operations. */
  lemma ValidateAcceptsExactly(contract: Packed<UpdateTokenParamsContract>, db: Manager, limits: TransferLimits,
                               keyOf: string -> Bytes)
    ensures Validate(contract, db, limits, keyOf).Pass? <==> Acceptable(contract, db, limits, keyOf)
  {
  }

  /** Each guard on its own rejects the operation. */
  lemma ValidateRejects(contract: Packed<UpdateTokenParamsContract>, db: Manager, limits: TransferLimits,
                        keyOf: string -> Bytes)
    requires contract.Packed?
    ensures var ctx := contract.msg; var v := Validate(contract, db, limits, keyOf);
      && (ctx.ownerAddress.None? || ctx.tokenName.None? ==> v.Fail?)
      && (ctx.ownerAddress.Some? && ctx.ownerAddress.value !in db.accounts ==> v.Fail?)
      && ((ctx.ownerAddress.Some? && ctx.ownerAddress.value in db.accounts
           && db.accounts[ctx.ownerAddress.value].balance < CalcFee(db.assetIssueFee)) ==> v.Fail?)
      && (TokenKey(ctx, keyOf) !in db.tokenPools ==> v.Fail?)
      && ((TokenKey(ctx, keyOf) in db.tokenPools
           && !(db.tokenPools[TokenKey(ctx, keyOf)].startTime <= db.headBlockTimeStamp
                < db.tokenPools[TokenKey(ctx, keyOf)].endTime)) ==> v.Fail?)
      && (!ParamsInRange(ctx, limits) ==> v.Fail?)
  {
    ValidateAcceptsExactly(contract, db, limits, keyOf);
  }

  /** The time window is checked end first: a pool whose end has passed is reported
      expired even if it has not started. */
  lemma ValidateReportsExpiryFirst(contract: Packed<UpdateTokenParamsContract>, db: Manager, limits: TransferLimits,
                                   keyOf: string -> Bytes)
    requires contract.Packed? && contract.msg.ownerAddress.Some? && contract.msg.tokenName.Some?
    requires contract.msg.ownerAddress.value in db.accounts
    requires db.accounts[contract.msg.ownerAddress.value].balance >= CalcFee(db.assetIssueFee)
    requires TokenKey(contract.msg, keyOf) in db.tokenPools
    requires db.headBlockTimeStamp >= db.tokenPools[TokenKey(contract.msg, keyOf)].endTime
    ensures Validate(contract, db, limits, keyOf) == Fail(TokenExpired)
  {
  }

  /** The pool after the update: fee, extra fee rate and lot each take the message's
      value when that field is present, and every other field is kept. */
  function ApplyParams(pool: TokenPool, ctx: UpdateTokenParamsContract): (r: TokenPool)
    ensures r.fee == ctx.amount.GetOr(pool.fee)
    ensures r.extraFeeRate == ctx.extraFeeRate.GetOr(pool.extraFeeRate)
    ensures r.lot == ctx.lot.GetOr(pool.lot)
    ensures r.(fee := pool.fee, extraFeeRate := pool.extraFeeRate, lot := pool.lot) == pool
  {
    var withFee := if ctx.amount.Some? then pool.(fee := ctx.amount.value) else pool;
    var withRate := if ctx.extraFeeRate.Some? then withFee.(extraFeeRate := ctx.extraFeeRate.value) else withFee;
    if ctx.lot.Some? then withRate.(lot := ctx.lot.value) else withRate
  }

  /** The pool invariant: fee within [0, max fee], extra fee rate within
      [0, min(100, max rate)], lot not negative. */
  ghost predicate PoolInvariant(pool: TokenPool, limits: TransferLimits) {
    && 0 <= pool.fee <= limits.maxTransferFee
    && 0 <= pool.extraFeeRate <= 100 && pool.extraFeeRate <= limits.maxTransferFeeRate
    && pool.lot >= 0
  }

  /** An update whose present fields pass the checks keeps the pool invariant. */
  lemma ApplyParamsKeepsInvariant(pool: TokenPool, ctx: UpdateTokenParamsContract, limits: TransferLimits)
    requires PoolInvariant(pool, limits) && ParamsInRange(ctx, limits)
    ensures PoolInvariant(ApplyParams(pool, ctx), limits)
  {
  }

  /** Applying the same update twice is applying it once. */
  lemma ApplyParamsIdempotent(pool: TokenPool, ctx: UpdateTokenParamsContract)
    ensures ApplyParams(ApplyParams(pool, ctx), ctx) == ApplyParams(pool, ctx)
  {
  }

  /** What `execute` needs to run to the end: the message unpacks, its pool exists,
      and the owner can pay the fee. */
  ghost predicate Executable(contract: Packed<UpdateTokenParamsContract>, db: Manager, keyOf: string -> Bytes)
    reads db
  {
    && contract.Packed?
    && TokenKey(contract.msg, keyOf) in db.tokenPools
    && Debit(db.accounts, GetOwnerAddress(contract).value, CalcFee(db.assetIssueFee)).Some?
  }

  /** Validation covers everything execution relies on, whatever the limits. */
  lemma ValidatedIsExecutable(contract: Packed<UpdateTokenParamsContract>, db: Manager, limits: TransferLimits,
                              keyOf: string -> Bytes)
    requires Validate(contract, db, limits, keyOf).Pass?
    ensures Executable(contract, db, keyOf)
    ensures PoolInvariant(db.tokenPools[TokenKey(contract.msg, keyOf)], limits) ==>
      PoolInvariant(ApplyParams(db.tokenPools[TokenKey(contract.msg, keyOf)], contract.msg), limits)
  {
    ValidateAcceptsExactly(contract, db, limits, keyOf);
    var pool := db.tokenPools[TokenKey(contract.msg, keyOf)];
    if PoolInvariant(pool, limits) {
      ApplyParamsKeepsInvariant(pool, contract.msg, limits);
    }
  }

  /** `execute`: reads the pool, sets the present fields, writes it back, then charges
      the fee. Every exception is caught, recorded as FAILED with the same fee, and
      raised again as ContractExeException; nothing written before it is undone. */
  method Execute(contract: Packed<UpdateTokenParamsContract>, db: Manager, keyOf: string -> Bytes,
                 ret: TransactionResultCapsule) returns (r: ExecOutcome)
    modifies db`tokenPools, db`accounts, ret
    ensures !r.UncaughtException?
    ensures ret.fee == CalcFee(db.assetIssueFee)
    ensures ret.status == if r.Executed? then SUCESS else FAILED
    ensures r.Executed? <==> old(Executable(contract, db, keyOf))
    ensures contract.Undecodable? ==>
      r == ContractExeException(InvalidProtocolBuffer)
      && db.tokenPools == old(db.tokenPools) && db.accounts == old(db.accounts)
    ensures contract.Packed? && TokenKey(contract.msg, keyOf) !in old(db.tokenPools) ==>
      r == ContractExeException(NullPointer)
      && db.tokenPools == old(db.tokenPools) && db.accounts == old(db.accounts)
    ensures contract.Packed? && TokenKey(contract.msg, keyOf) in old(db.tokenPools) ==>
      var key := TokenKey(contract.msg, keyOf);
      && db.tokenPools == old(db.tokenPools)[key := ApplyParams(old(db.tokenPools)[key], contract.msg)]
      && db.accounts == Debit(old(db.accounts), GetOwnerAddress(contract).value, CalcFee(db.assetIssueFee))
                          .GetOr(old(db.accounts))
      && (r.Executed? || r == ContractExeException(BalanceInsufficient))
    ensures old(Solvent(db.accounts)) ==> Solvent(db.accounts)
  {
    var fee := CalcFee(db.assetIssueFee);
    if contract.Undecodable? {
      ret.SetStatus(fee, FAILED);
      return ContractExeException(InvalidProtocolBuffer);
    }
    var ctx := contract.msg;
    var ownerAddress := ctx.ownerAddress.GetOr([]);
    var tokenKey := keyOf(ctx.tokenName.GetOr(""));
    if tokenKey !in db.tokenPools {
      // the store hands back null; a setter dereferences it, and with no field
      // present the null reaches `put`, whose handling is not modelled (taken as the same fault)
      ret.SetStatus(fee, FAILED);
      return ContractExeException(NullPointer);
    }
    var tokenCap := db.tokenPools[tokenKey];
    if ctx.amount.Some? {
      tokenCap := tokenCap.(fee := ctx.amount.value);
    }
    if ctx.extraFeeRate.Some? {
      tokenCap := tokenCap.(extraFeeRate := ctx.extraFeeRate.value);
    }
    if ctx.lot.Some? {
      tokenCap := tokenCap.(lot := ctx.lot.value);
    }
    db.tokenPools := db.tokenPools[tokenKey := tokenCap];
    var charged := db.ChargeFee(ownerAddress, fee);
    if !charged {
      ret.SetStatus(fee, FAILED);
      return ContractExeException(BalanceInsufficient);
    }
    ret.SetStatus(fee, SUCESS);
    return Executed;
  }
}
