/**
 The gas search of eth_estimateGas. Executing the call under a gas limit is a function from the
 limit to what happened; the tolerance is compared over the reals, without floating-point rounding.
 */
module GasEstimate {
  import opened Wrappers
  import opened ByteStrings

  const TX_GAS: nat := 21000
  const CALL_STIPEND: nat := 2300
  const MAX_TXN_GAS_LIMIT: nat := 16777216
  const ERROR_RATIO: real := 0.015

  /** The most gas for which the upper end suggested by the first execution does not wrap around in 64 bits. */
  const SAFE_GAS: nat := 0x400_0000_0000_0000 - CALL_STIPEND - 1

  datatype VmError = NoVmError | OutOfGas | ExecutionReverted | OtherVmError

  datatype Outcome =
    | Refused
    | LimitUnsuitable
    | Executed(error: VmError, receiptGasUsed: nat, maxGasUsed: nat)

  type Caller = nat -> Outcome

  datatype EstimateError = InsufficientFunds | ExecutionRefused | Reverts | VmFailure | AllowanceExceeded

  /** Executed to the end without an error. */
  predicate Succeeds(call: Caller, gas: nat) {
    call(gas).Executed? && call(gas).error == NoVmError
  }

  ghost predicate Monotone(call: Caller) {
    forall a: nat, b: nat | a <= b && Succeeds(call, a) :: Succeeds(call, b)
  }

  /** A successful execution is charged at least one unit of gas, and no limit below what one is charged succeeds. */
  ghost predicate NeedsWhatItUses(call: Caller) {
    forall a: nat, b: nat | Succeeds(call, a) && Succeeds(call, b) :: 1 <= call(b).receiptGasUsed <= a
  }

  // ---------- The search ----------

  function Min(a: nat, b: nat): nat {
    if a < b then a else b
  }

  /** Half way, but at most twice the lower end, in 64-bit arithmetic. */
  function Mid(lo: nat, hi: nat): nat {
    Min((hi + lo) % WORD64 / 2, lo * 2 % WORD64)
  }

  /**
   The probe is strictly inside the interval exactly if the lower end is not zero and the sum of both
   is a 64-bit number.
   */
  lemma MidBetween(lo: nat, hi: nat)
    requires lo + 1 < hi < WORD64
    ensures lo < Mid(lo, hi) < hi <==> lo >= 1 && hi + lo < WORD64
    ensures lo == 0 ==> Mid(lo, hi) == lo
    ensures hi + lo >= WORD64 ==> Mid(lo, hi) < lo
  {
  }

  /** Where the sum fits it is half of it, rounded down, unless that is above twice the lower end. */
  lemma MidIsHalf(lo: nat, hi: nat)
    requires lo < hi && hi + lo < WORD64
    ensures 2 * Mid(lo, hi) <= hi + lo && Mid(lo, hi) <= 2 * lo
    ensures 2 * Mid(lo, hi) + 1 >= hi + lo || Mid(lo, hi) == 2 * lo
  {
  }

  /** A call that used 21001 units, under the largest limit there is, is probed at half its lower end. */
  lemma MidWraps()
    ensures Mid(21000, WORD64 - 1) == 10499
  {
  }

  /** The ends are less than two apart, in 64-bit arithmetic. */
  predicate Adjacent(lo: nat, hi: nat) {
    (lo + 1) % WORD64 >= hi
  }

  predicate Close(lo: nat, hi: nat)
    requires hi > 0
  {
    ((hi - lo) % WORD64) as real / hi as real < ERROR_RATIO
  }

  /** Every probe of the search from here on is strictly inside its interval. */
  ghost predicate StaysInside(call: Caller, lo: nat, hi: nat)
    decreases hi - lo
  {
    Adjacent(lo, hi) || Close(lo, hi) ||
    (lo < Mid(lo, hi) < hi &&
     match call(Mid(lo, hi))
     case Refused => true
     case LimitUnsuitable => StaysInside(call, Mid(lo, hi), hi)
     case Executed(error, _, _) =>
       if error != NoVmError then StaysInside(call, Mid(lo, hi), hi) else StaysInside(call, lo, Mid(lo, hi)))
  }

  /** The highest limit with room in 64 bits for every lower end that is not close to it. */
  predicate Roomy(hi: nat) {
    397 * hi < 200 * WORD64
  }

  /** Below that limit the probes stay inside, whatever the call does. */
  lemma {:induction false} RoomyStaysInside(call: Caller, lo: nat, hi: nat)
    requires 1 <= lo < WORD64 - 1 && Roomy(hi)
    ensures StaysInside(call, lo, hi)
    decreases hi - lo
  {
    hide Mid;
    if !Adjacent(lo, hi) && !Close(lo, hi) {
      SumInRange(lo, hi);
      MidBetween(lo, hi);
      RoomyStaysInside(call, Mid(lo, hi), hi);
      RoomyStaysInside(call, lo, Mid(lo, hi));
    }
  }

  lemma SumInRange(lo: nat, hi: nat)
    requires lo < hi < WORD64 && !Close(lo, hi) && Roomy(hi)
    ensures hi + lo < WORD64
  {
    NotClose(lo, hi);
  }

  lemma NotClose(lo: nat, hi: nat)
    requires lo < hi < WORD64
    ensures Close(lo, hi) <==> 200 * (hi - lo) < 3 * hi
  {
    assert (hi - lo) % WORD64 == hi - lo;
    RatioBelow(((hi - lo) % WORD64) as real, hi as real);
  }

  lemma RatioBelow(width: real, top: real)
    requires top > 0.0
    ensures width / top < ERROR_RATIO <==> width < ERROR_RATIO * top
  {
    var ratio := width / top;
    assert width == ratio * top;
    Scale(ratio, ERROR_RATIO, top);
  }

  lemma Scale(a: real, b: real, c: real)
    requires c > 0.0
    ensures a < b <==> a * c < b * c
  {
    if a < b {
      assert (b - a) * c > 0.0;
    } else {
      assert (a - b) * c >= 0.0;
    }
  }

  /** At any other limit some lower end leaves the interval at once: the bound cannot be raised. */
  lemma RoomyIsExact(call: Caller, hi: nat)
    requires hi < WORD64
    ensures Roomy(hi) <==> AlwaysInside(call, hi)
  {
    if Roomy(hi) {
      forall lo: nat | 1 <= lo < hi
        ensures StaysInside(call, lo, hi)
      {
        RoomyStaysInside(call, lo, hi);
      }
    } else {
      LeavesAtOnce(call, hi);
    }
  }

  ghost predicate AlwaysInside(call: Caller, hi: nat) {
    forall lo: nat | 1 <= lo < hi :: StaysInside(call, lo, hi)
  }

  lemma LeavesAtOnce(call: Caller, hi: nat)
    requires !Roomy(hi) && hi < WORD64
    ensures 1 <= WORD64 - hi < hi && !StaysInside(call, WORD64 - hi, hi)
  {
    var lo: nat := WORD64 - hi;
    assert lo + 1 < hi;
    NotClose(lo, hi);
    MidBetween(lo, hi);
  }

  /** No smaller limit succeeds by more than the tolerance. */
  ghost predicate NearMinimal(call: Caller, gas: nat) {
    forall m: nat | Succeeds(call, m) && m < gas :: (gas - m) as real < ERROR_RATIO * gas as real
  }

  method Search(call: Caller, lowest: nat, highest: nat) returns (r: Result<nat, EstimateError>)
    requires highest < WORD64
    requires Succeeds(call, highest)
    requires StaysInside(call, lowest, highest)
    ensures r.Ok? ==> Succeeds(call, r.value) && r.value <= highest
    ensures r.Ok? && Monotone(call) && !Succeeds(call, lowest) ==> lowest < r.value && NearMinimal(call, r.value)
    ensures r.Err? ==> r.error == ExecutionRefused && exists gas: nat :: call(gas) == Refused
  {
    hide Mid;
    var lo: nat, hi: nat := lowest, highest;
    while !Adjacent(lo, hi)
      invariant hi <= highest && (lo < hi || (lo, hi) == (lowest, highest))
      invariant Succeeds(call, hi)
      invariant lo > lowest ==> !Succeeds(call, lo)
      invariant lo >= lowest
      invariant StaysInside(call, lo, hi)
      decreases hi - lo
    {
      if Close(lo, hi) {
        break;
      }
      var mid := Mid(lo, hi);
      match call(mid)
      case Refused => return Err(ExecutionRefused);
      case LimitUnsuitable => lo := mid;
      case Executed(error, _, _) =>
        if error != NoVmError {
          lo := mid;
        } else {
          hi := mid;
        }
    }
    if Monotone(call) && !Succeeds(call, lowest) {
      SearchNear(call, lo, hi);
    }
    return Ok(hi);
  }

  lemma SearchNear(call: Caller, lo: nat, hi: nat)
    requires Monotone(call) && !Succeeds(call, lo) && Succeeds(call, hi)
    requires hi < WORD64 && (Adjacent(lo, hi) || Close(lo, hi))
    ensures lo < hi && NearMinimal(call, hi)
  {
    assert lo < hi;
    forall m: nat | Succeeds(call, m) && m < hi
      ensures (hi - m) as real < ERROR_RATIO * hi as real
    {
      assert m > lo;
      CloseBound(lo, hi, m);
    }
  }

  lemma CloseBound(lo: nat, hi: nat, m: nat)
    requires lo < m < hi < WORD64 && Close(lo, hi)
    ensures (hi - m) as real < ERROR_RATIO * hi as real
  {
    NotClose(lo, hi);
  }

  // ---------- The upper end ----------

  datatype Request = Request(gas: Option<nat>, feeCap: nat, value: Option<nat>, plainTransfer: bool)

  datatype Chain = Chain(gasLimit: nat, osaka: bool, amsterdam: bool, gasCap: nat, balance: nat)

  predicate Funded(request: Request, chain: Chain) {
    request.feeCap == 0 || request.value.None? || request.value.value < chain.balance
  }

  /** What is left for gas after the transfer. */
  function Available(request: Request, chain: Chain): nat
    requires Funded(request, chain) && request.feeCap != 0
  {
    if request.value.None? then chain.balance else chain.balance - request.value.value
  }

  /** The least of what was asked for, the fork's cap, what the sender can pay for, and the node's cap. */
  function HighestLimit(request: Request, chain: Chain): nat
    requires Funded(request, chain)
  {
    var asked := if request.gas.Some? && request.gas.value >= TX_GAS then request.gas.value else chain.gasLimit;
    var forked := if chain.osaka && !chain.amsterdam then Min(asked, MAX_TXN_GAS_LIMIT) else asked;
    var payable := if request.feeCap == 0 then forked else Min(forked, Available(request, chain) / request.feeCap);
    Min(payable, chain.gasCap)
  }

  /**
   A limit that may be tried: no more than was asked for, or than the block has if nothing that pays for a transaction
   was, no more than a transaction may have under Osaka alone or the node allows, and payable beside the value sent.
   */
  predicate Permitted(request: Request, chain: Chain, gas: nat) {
    && gas <= (if request.gas.Some? && request.gas.value >= 21000 then request.gas.value else chain.gasLimit)
    && (chain.osaka && !chain.amsterdam ==> gas <= 16777216)
    && (request.feeCap != 0 ==> gas * request.feeCap + request.value.GetOr(0) <= chain.balance)
    && gas <= chain.gasCap
  }

  /** The highest limit is the greatest one permitted. */
  lemma HighestPermitted(request: Request, chain: Chain, gas: nat)
    requires Funded(request, chain)
    ensures Permitted(request, chain, gas) <==> gas <= HighestLimit(request, chain)
  {
    if request.feeCap != 0 {
      PayableBelow(gas, Available(request, chain), request.feeCap);
    }
  }

  /** The sender can pay for the highest limit at the fee cap. */
  lemma HighestLimitPayable(request: Request, chain: Chain)
    requires Funded(request, chain) && request.feeCap != 0
    ensures HighestLimit(request, chain) * request.feeCap <= Available(request, chain)
  {
    HighestPermitted(request, chain, HighestLimit(request, chain));
  }

  lemma PayableBelow(gas: nat, available: nat, fee: nat)
    requires fee > 0
    ensures gas * fee <= available <==> gas <= available / fee
  {
    var allowance := available / fee;
    Quotient(available, fee);
    if gas <= allowance {
      Affordable(gas, allowance, fee);
    } else {
      Affordable(allowance + 1, gas, fee);
    }
  }

  lemma Quotient(a: nat, b: nat)
    requires b > 0
    ensures a / b * b <= a < (a / b + 1) * b
  {
  }

  lemma Affordable(gas: nat, allowance: nat, fee: nat)
    requires gas <= allowance
    ensures gas * fee <= allowance * fee
  {
    assert (allowance - gas) * fee >= 0;
  }

  /** The caps one after another, as they are applied. */
  method CapLimit(request: Request, chain: Chain) returns (r: Result<nat, EstimateError>)
    requires chain.gasLimit < WORD64 && (request.gas.Some? ==> request.gas.value < WORD64)
    ensures r == if Funded(request, chain) then Ok(HighestLimit(request, chain)) else Err(InsufficientFunds)
  {
    var hi := chain.gasLimit;
    if request.gas.Some? && request.gas.value >= TX_GAS {
      hi := request.gas.value;
    }
    if hi > MAX_TXN_GAS_LIMIT && chain.osaka && !chain.amsterdam {
      hi := MAX_TXN_GAS_LIMIT;
    }
    if request.feeCap != 0 {
      var available := chain.balance;
      if request.value.Some? {
        if request.value.value >= available {
          return Err(InsufficientFunds);
        }
        available := available - request.value.value;
      }
      var allowance := available / request.feeCap;
      if allowance < WORD64 && hi > allowance {
        hi := allowance;
      }
    }
    if hi > chain.gasCap {
      hi := chain.gasCap;
    }
    return Ok(hi);
  }

  // ---------- The estimate ----------

  /** The upper end suggested by the gas the first execution touched. */
  function OptimisticLimit(maxGasUsed: nat): nat {
    (maxGasUsed + CALL_STIPEND) * 64 % WORD64 / 63
  }

  /** It is above the gas used exactly up to the safe bound; beyond that the product has wrapped around. */
  lemma OptimisticAbove(maxGasUsed: nat)
    ensures OptimisticLimit(maxGasUsed) > maxGasUsed <==> maxGasUsed <= SAFE_GAS
  {
    var product := (maxGasUsed + CALL_STIPEND) * 64;
    if maxGasUsed > SAFE_GAS && maxGasUsed < WORD64 / 63 {
      assert product % WORD64 == product - WORD64;
    }
  }

  /** Up to that bound it is 64/63 of the gas and the stipend together, rounded down. */
  lemma OptimisticRatio(maxGasUsed: nat)
    requires maxGasUsed <= SAFE_GAS
    ensures var optimistic := OptimisticLimit(maxGasUsed);
            63 * optimistic <= 64 * (maxGasUsed + 2300) < 63 * (optimistic + 1)
  {
  }

  /** The interval that the search starts from, after the executions at the highest and at the suggested limit. */
  function Bracket(call: Caller, highest: nat): (nat, nat)
    requires call(highest).Executed?
  {
    var lo := (call(highest).receiptGasUsed + WORD64 - 1) % WORD64;
    var optimistic := OptimisticLimit(call(highest).maxGasUsed);
    if optimistic >= highest then (lo, highest)
    else if Succeeds(call, optimistic) then (lo, optimistic)
    else (optimistic, highest)
  }

  /** No probe of the estimate leaves its interval. */
  ghost predicate EstimateStaysInside(call: Caller, highest: nat) {
    Succeeds(call, highest) ==> StaysInside(call, Bracket(call, highest).0, Bracket(call, highest).1)
  }

  /** Up to the safe bound that holds of every call that is charged two units or more, and no more than its limit. */
  lemma SafeEstimate(call: Caller, highest: nat)
    requires highest <= SAFE_GAS
    requires Succeeds(call, highest) ==> 2 <= call(highest).receiptGasUsed <= call(highest).maxGasUsed <= highest
    ensures EstimateStaysInside(call, highest)
  {
    hide StaysInside;
    if Succeeds(call, highest) {
      var (lo, hi) := Bracket(call, highest);
      OptimisticAbove(call(highest).maxGasUsed);
      RoomyStaysInside(call, lo, hi);
    }
  }

  predicate Shortcut(request: Request, call: Caller) {
    request.plainTransfer && Succeeds(call, TX_GAS)
  }

  /** What the execution at the highest limit makes of the answer: any failure of it is final. */
  predicate FirstAnswer(outcome: Outcome, r: Result<nat, EstimateError>) {
    match outcome
    case Refused => r == Err(ExecutionRefused)
    case LimitUnsuitable => r == Err(AllowanceExceeded)
    case Executed(ExecutionReverted, _, _) => r == Err(Reverts)
    case Executed(OtherVmError, _, _) => r == Err(VmFailure)
    case Executed(OutOfGas, _, _) => r == Err(AllowanceExceeded)
    case Executed(NoVmError, _, _) => r.Ok? || r == Err(ExecutionRefused)
  }

  /**
   A returned limit was executed and succeeded. Unless a plain transfer took the short cut, it obeys every cap,
   and it is minimal up to the tolerance if success is monotone in gas.
   */
  method EstimateGas(request: Request, chain: Chain, call: Caller) returns (r: Result<nat, EstimateError>)
    requires chain.gasLimit < WORD64 && (request.gas.Some? ==> request.gas.value < WORD64)
    requires chain.gasCap < WORD64
    requires Funded(request, chain) ==> EstimateStaysInside(call, HighestLimit(request, chain))
    ensures r.Ok? ==> Funded(request, chain) && Succeeds(call, r.value)
    ensures r.Ok? ==> if Shortcut(request, call) then r.value == 21000 else Permitted(request, chain, r.value)
    ensures r == Err(InsufficientFunds) <==> !Funded(request, chain)
    ensures Funded(request, chain) && !Shortcut(request, call) ==>
              FirstAnswer(call(HighestLimit(request, chain)), r)
    ensures r.Ok? && !Shortcut(request, call) && Monotone(call) && NeedsWhatItUses(call) ==> NearMinimal(call, r.value)
    ensures r.Err? && Funded(request, chain) ==>
              && !Shortcut(request, call)
              && (!Succeeds(call, HighestLimit(request, chain)) || exists gas: nat :: call(gas) == Refused)
  {
    hide Monotone, NearMinimal, HighestLimit, Permitted, StaysInside, OptimisticLimit, NeedsWhatItUses;
    var limit := CapLimit(request, chain);
    if limit.Err? {
      return Err(limit.error);
    }
    var hi := limit.value;
    ghost var highest := hi;
    HighestPermitted(request, chain, highest);
    LimitCapped(request, chain);
    if request.plainTransfer {
      match call(TX_GAS)
      case Executed(error, _, _) =>
        if error == NoVmError {
          return Ok(TX_GAS);
        }
      case _ =>
    }
    match call(hi)
    case Refused => return Err(ExecutionRefused);
    case LimitUnsuitable => return Err(AllowanceExceeded);
    case Executed(error, receiptGasUsed, maxGasUsed) =>
      if error == ExecutionReverted {
        return Err(Reverts);
      }
      if error == OtherVmError {
        return Err(VmFailure);
      }
      if error == OutOfGas {
        return Err(AllowanceExceeded);
      }
      var lo := (receiptGasUsed + WORD64 - 1) % WORD64;
      var optimistic := OptimisticLimit(maxGasUsed);
      if optimistic < hi {
        match call(optimistic)
        case Refused => return Err(ExecutionRefused);
        case LimitUnsuitable => lo := optimistic;
        case Executed(again, _, _) =>
          if again != NoVmError {
            lo := optimistic;
          } else {
            hi := optimistic;
          }
      }
      assert (lo, hi) == Bracket(call, highest);
      LowerEndFails(call, highest);
      r := Search(call, lo, hi);
      if r.Ok? {
        HighestPermitted(request, chain, r.value);
      }
  }

  /** The search starts from a lower end that fails. */
  lemma LowerEndFails(call: Caller, highest: nat)
    requires Succeeds(call, highest) && highest < WORD64
    ensures Bracket(call, highest).1 <= highest && Succeeds(call, Bracket(call, highest).1)
    ensures NeedsWhatItUses(call) ==> !Succeeds(call, Bracket(call, highest).0)
  {
    var receipt := call(highest).receiptGasUsed;
    if NeedsWhatItUses(call) {
      assert 1 <= receipt <= highest;
      assert (receipt + WORD64 - 1) % WORD64 == receipt - 1;
    }
  }

  lemma LimitCapped(request: Request, chain: Chain)
    requires Funded(request, chain)
    ensures HighestLimit(request, chain) <= chain.gasCap
  {
  }
}
