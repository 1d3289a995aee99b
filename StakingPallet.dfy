/** The staking pallet's storage, updated in place: `Validators`, `Delegators` and
    `ActiveValidators` are fields. The pallet reads the currency pallet's `Balances`
    through `currency` and can never write them: every method modifies only `this`. */
module StakingPallet {
  import opened Support
  import opened Selection
  import S = Staking
  import CurrencyPallet

  class Pallet {
    const currency: CurrencyPallet.Pallet
    var validators: map<AccountId, S.ValidatorStake>
    var delegators: map<AccountId, Balance>
    var activeValidators: seq<AccountId>

    function State(): S.StakingState
      reads this
    {
      S.StakingState(validators, delegators, activeValidators)
    }

    /** Fresh storage beside an existing currency pallet. */
    constructor (currency: CurrencyPallet.Pallet)
      ensures this.currency == currency
      ensures State() == S.Empty
    {
      this.currency := currency;
      validators := map[];
      delegators := map[];
      activeValidators := [];
    }

    /** `register(origin, amount)`, the signed caller being `who`. */
    method Register(who: AccountId, amount: Balance) returns (r: DispatchResult)
      modifies this
      ensures Step(r, State()) == S.Register(old(State()), currency.balances, who, amount)
      ensures currency.balances == old(currency.balances)
      ensures old(S.Valid(State())) ==> S.Valid(State())
    {
      if who in validators {
        return Err("AlreadyRegistered");
      }
      if !(who in currency.balances && currency.balances[who] >= amount) {
        return Err("InsufficientFunds");
      }
      validators := validators[who := S.ValidatorStake(amount, 0)];
      if old(S.Valid(State())) {
        S.RegisterKeepsValid(old(State()), currency.balances, who, amount);
      }
      return Ok;
    }

    /** `delegate(origin, to, amount)`, the signed caller being `who`. */
    method Delegate(who: AccountId, to: AccountId, amount: Balance) returns (r: DispatchResult)
      modifies this
      ensures Step(r, State()) == S.Delegate(old(State()), currency.balances, who, to, amount)
      ensures currency.balances == old(currency.balances)
      ensures old(S.Valid(State())) ==> S.Valid(State())
    {
      if who in delegators {
        return Err("AlreadyDelegator");
      }
      if !(who in currency.balances && currency.balances[who] >= amount) {
        return Err("InsufficientFunds");
      }
      if to !in validators {
        return Err("NotRegistered");
      }
      delegators := delegators[who := amount];
      var stake := validators[to];
      validators := validators[to := stake.(delegated := stake.delegated + amount)];
      if old(S.Valid(State())) {
        S.DelegateKeepsValid(old(State()), currency.balances, who, to, amount);
      }
      return Ok;
    }

    /** `on_initialize(now)`. `order` is the order in which the storage map yields the
        validators at this block. */
    method OnInitialize(now: nat, config: S.Config, order: seq<AccountId>)
      requires config.eraDuration > 0
      requires S.IsEnumeration(order, validators)
      modifies this
      ensures State() == S.OnInitialize(old(State()), now, config, order)
      ensures old(S.Valid(State())) ==> S.Valid(State())
    {
      if now % config.eraDuration == 0 && now != 0 {
        var allValidators := S.Collect(validators, order);
        allValidators := SortByKey(allValidators, S.TotalStake);
        allValidators := Reverse(allValidators);
        var taken := allValidators[..Min(config.validatorCount, |allValidators|)];
        activeValidators := Ids(taken);
      }
      if old(S.Valid(State())) {
        S.OnInitializeKeepsValid(old(State()), now, config, order);
      }
    }

    /** The genesis build: `register` each listed validator, then `delegate` for each
        listed delegator, each under the listed account's origin; the first error is a
        panic, returned here as its message. */
    method BuildGenesis(validatorList: seq<(AccountId, Balance)>,
                        delegatorList: seq<(AccountId, AccountId, Balance)>) returns (panic: Option<string>)
      modifies this
      ensures currency.balances == old(currency.balances)
      ensures var g := S.BuildGenesis(old(State()), currency.balances, validatorList, delegatorList);
        && (panic.None? <==> g.Built?)
        && (g.Built? ==> State() == g.state)
        && (g.Panicked? ==> panic == Some(g.message))
    {
      for i := 0 to |validatorList|
        invariant S.RegisterAll(old(State()), currency.balances, validatorList)
               == S.RegisterAll(State(), currency.balances, validatorList[i..])
      {
        var (validator, selfStake) := validatorList[i];
        assert validatorList[i..][1..] == validatorList[i + 1..];
        var r := Register(validator, selfStake);
        if r.Err? {
          return Some(r.message);
        }
      }
      ghost var registered := State();
      for i := 0 to |delegatorList|
        invariant S.DelegateAll(registered, currency.balances, delegatorList)
               == S.DelegateAll(State(), currency.balances, delegatorList[i..])
      {
        var (delegator, delegatee, stake) := delegatorList[i];
        assert delegatorList[i..][1..] == delegatorList[i + 1..];
        var r := Delegate(delegator, delegatee, stake);
        if r.Err? {
          return Some(r.message);
        }
      }
      return None;
    }
  }
}
