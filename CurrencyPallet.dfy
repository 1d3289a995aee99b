/** The currency pallet's storage, updated in place: `Balances` and `TotalIssuance`
    are fields, and each dispatchable call is a method whose new state is the
    value-level operation of module Currency applied to the old state. */
module CurrencyPallet {
  import opened Support
  import C = Currency

  class Pallet {
    /** Each account's balance; an account with no entry does not exist. */
    var balances: map<AccountId, Balance>
    /** The issuance: meant to equal the total of all balances. */
    var totalIssuance: Balance

    function State(): C.Ledger
      reads this
    {
      C.Ledger(balances, totalIssuance)
    }

    /** Fresh storage: no accounts, zero issuance. */
    constructor ()
      ensures State() == C.Empty
    {
      balances := map[];
      totalIssuance := 0;
    }

    /** `mint(origin, to, amount)`; the signed caller is irrelevant and not modelled. */
    method Mint(to: AccountId, amount: Balance) returns (r: DispatchResult)
      modifies this
      ensures r == Ok
      ensures State() == C.Mint(old(State()), to, amount)
      ensures old(C.Conserved(State())) ==> C.Conserved(State())
    {
      balances := balances[to := C.BalanceOrZero(balances, to) + amount];
      totalIssuance := totalIssuance + amount;
      C.MintConserves(old(State()), to, amount);
      r := Ok;
    }

    /** `transfer(origin, to, amount)`, the signed caller being `sender`. Both checks
        run before either write; `to` is credited first, then the sender's entry is
        overwritten. */
    method Transfer(sender: AccountId, to: AccountId, amount: Balance) returns (r: DispatchResult)
      modifies this
      ensures Step(r, State()) == C.Transfer(old(State()), sender, to, amount)
      ensures r.Err? ==> State() == old(State())
      ensures sender != to && old(C.Conserved(State())) ==> C.Conserved(State())
    {
      if sender !in balances {
        return Err("NonExistentAccount");
      }
      var senderBalance := balances[sender];
      if senderBalance < amount {
        return Err("notEnoughBalance");
      }
      var reminder := senderBalance - amount;
      balances := balances[to := C.BalanceOrZero(balances, to) + amount];
      balances := balances[sender := reminder];
      r := Ok;
      if sender != to {
        C.TransferConserves(old(State()), sender, to, amount);
      }
    }

    /** The genesis build: inserts each listed balance and accumulates issuance,
        panicking on an account that already has an entry. */
    method BuildGenesis(entries: seq<(AccountId, Balance)>) returns (panic: Option<string>)
      modifies this
      ensures var g := C.BuildGenesis(old(State()), entries);
        && (panic.None? <==> g.Built?)
        && (g.Built? ==> State() == g.state)
        && (g.Panicked? ==> panic == Some(g.message))
    {
      for i := 0 to |entries|
        invariant C.BuildGenesis(old(State()), entries) == C.BuildGenesis(State(), entries[i..])
      {
        var (who, amount) := entries[i];
        assert entries[i..][1..] == entries[i + 1..];
        if who in balances {
          return Some("duplicate balance in genesis");
        }
        balances := balances[who := amount];
        totalIssuance := totalIssuance + amount;
      }
      return None;
    }
  }
}
