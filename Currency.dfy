/** The balance ledger of the currency pallet, as values: the `Balances` map
    (a missing entry is "no account", distinct from a zero balance) and the
    `TotalIssuance` scalar, documented as the sum of all tokens in existence.
    The three tutorial stages share `mint` and `transfer` word for word; the
    last stage adds the genesis build. */
module Currency {
  import opened Support

  datatype Ledger = Ledger(balances: map<AccountId, Balance>, totalIssuance: Balance)

  /** The ledger with no accounts, before genesis. */
  const Empty := Ledger(map[], 0)

  /** `TotalIssuance` is the sum of every balance. */
  ghost predicate Conserved(s: Ledger) {
    SumOf(s.balances) == s.totalIssuance
  }

  /** A balance entry read with `unwrap_or(0)`: an absent account counts as zero. */
  function BalanceOrZero(b: map<AccountId, Balance>, who: AccountId): Balance {
    if who in b then b[who] else 0
  }

  /** Credits `amount` to `to`, reading a missing entry as 0 and creating it. */
  function Credit(b: map<AccountId, Balance>, to: AccountId, amount: Balance): (r: map<AccountId, Balance>)
    ensures r.Keys == b.Keys + {to}
    ensures r[to] == BalanceOrZero(b, to) + amount
    ensures forall a :: a in b && a != to ==> r[a] == b[a]
  {
    b[to := BalanceOrZero(b, to) + amount]
  }

  /** `mint`: credits `to`, creating the entry when absent, and raises issuance.
      It has no failure path once the origin is signed. */
  function Mint(s: Ledger, to: AccountId, amount: Balance): (r: Ledger)
    ensures r.totalIssuance == s.totalIssuance + amount
  {
    Ledger(Credit(s.balances, to, amount), s.totalIssuance + amount)
  }

  /** `transfer`: the sender's entry must exist and hold at least `amount`; then `to`
      is credited and the sender's entry is overwritten with the remainder. */
  function Transfer(s: Ledger, sender: AccountId, to: AccountId, amount: Balance): (r: Step<Ledger>)
    ensures r.post.totalIssuance == s.totalIssuance
  {
    if sender !in s.balances then Step(Err("NonExistentAccount"), s)
    else if s.balances[sender] < amount then Step(Err("notEnoughBalance"), s)
    else
      var reminder := s.balances[sender] - amount;
      Step(Ok, Ledger(Credit(s.balances, to, amount)[sender := reminder], s.totalIssuance))
  }

  /** Genesis: each listed `(who, amount)` is inserted and added to issuance, in list
      order; an account already present is a fatal assertion failure. */
  function BuildGenesis(s: Ledger, entries: seq<(AccountId, Balance)>): (r: Genesis<Ledger>)
    ensures r.Panicked? ==> r.message == "duplicate balance in genesis"
    ensures r.Built? ==> s.balances.Keys <= r.state.balances.Keys && s.totalIssuance <= r.state.totalIssuance
    decreases |entries|
  {
    if entries == [] then Built(s)
    else
      var (who, amount) := entries[0];
      if who in s.balances then Panicked("duplicate balance in genesis")
      else BuildGenesis(Ledger(s.balances[who := amount], s.totalIssuance + amount), entries[1..])
  }

  /** The amounts a genesis list names, added up. */
  function Amounts(entries: seq<(AccountId, Balance)>): nat {
    if entries == [] then 0 else entries[0].1 + Amounts(entries[1..])
  }

  // ---------------------------------------------------------------------------
  // mint

  /** Minting credits exactly `amount` to `to` (an absent entry counts as zero),
      leaves every other account as it was and never removes an entry. */
  lemma MintEffect(s: Ledger, to: AccountId, amount: Balance)
    ensures var r := Mint(s, to, amount);
      && r.balances.Keys == s.balances.Keys + {to}
      && r.balances[to] == BalanceOrZero(s.balances, to) + amount
      && (forall a :: a in s.balances && a != to ==> r.balances[a] == s.balances[a])
  {
  }

  /** Minting raises the sum of balances by exactly the amount it adds to issuance. */
  lemma MintConserves(s: Ledger, to: AccountId, amount: Balance)
    ensures SumOf(Mint(s, to, amount).balances) == SumOf(s.balances) + amount
    ensures Conserved(s) ==> Conserved(Mint(s, to, amount))
  {
    SumUpdate(s.balances, to, BalanceOrZero(s.balances, to) + amount);
  }

  /** Two mints to the same account add up. */
  lemma MintTwice(s: Ledger, to: AccountId, x: Balance, y: Balance)
    ensures Mint(Mint(s, to, x), to, y) == Mint(s, to, x + y)
  {
    assert Mint(Mint(s, to, x), to, y).balances == Mint(s, to, x + y).balances;
  }

  // ---------------------------------------------------------------------------
  // transfer

  /** A transfer fails exactly when the sender has no entry ("NonExistentAccount",
      checked first) or holds less than `amount` ("notEnoughBalance"); a failed
      transfer leaves the ledger exactly as it was. */
  lemma TransferFailure(s: Ledger, sender: AccountId, to: AccountId, amount: Balance)
    ensures var r := Transfer(s, sender, to, amount);
      && (r.result == Err("NonExistentAccount") <==> sender !in s.balances)
      && (r.result == Err("notEnoughBalance") <==> sender in s.balances && s.balances[sender] < amount)
      && (r.result == Ok <==> sender in s.balances && s.balances[sender] >= amount)
      && (r.result != Ok ==> r.post == s)
  {
  }

  /** Because a failed transfer changes nothing, repeating it fails identically. */
  lemma TransferFailureRepeats(s: Ledger, sender: AccountId, to: AccountId, amount: Balance)
    requires Transfer(s, sender, to, amount).result.Err?
    ensures Transfer(Transfer(s, sender, to, amount).post, sender, to, amount) == Transfer(s, sender, to, amount)
  {
  }

  /** Between distinct accounts a successful transfer debits the sender by `amount`,
      keeping its entry even at zero, credits `to` (creating it when absent),
      and leaves every other account alone. */
  lemma TransferEffect(s: Ledger, sender: AccountId, to: AccountId, amount: Balance)
    requires sender != to
    requires Transfer(s, sender, to, amount).result == Ok
    ensures var r := Transfer(s, sender, to, amount).post;
      && r.balances.Keys == s.balances.Keys + {to}
      && r.balances[sender] == s.balances[sender] - amount
      && r.balances[to] == BalanceOrZero(s.balances, to) + amount
      && (forall a :: a in s.balances && a != sender && a != to ==> r.balances[a] == s.balances[a])
  {
  }

  /** A transfer between distinct accounts moves tokens without creating or
      destroying any: the sum of balances, and with it the invariant, is kept. */
  lemma {:induction false} TransferConserves(s: Ledger, sender: AccountId, to: AccountId, amount: Balance)
    requires sender != to
    ensures SumOf(Transfer(s, sender, to, amount).post.balances) == SumOf(s.balances)
    ensures Conserved(s) ==> Conserved(Transfer(s, sender, to, amount).post)
  {
    if sender in s.balances && s.balances[sender] >= amount {
      var credited := Credit(s.balances, to, amount);
      SumUpdate(s.balances, to, BalanceOrZero(s.balances, to) + amount);
      SumUpdate(credited, sender, s.balances[sender] - amount);
    }
  }

  /** A transfer to oneself, as written, credits the sender and then overwrites the
      credit with the remainder: the sender ends with `b - amount`, so the balances
      sum drops by `amount` while issuance stays put. */
  lemma {:induction false} SelfTransferBurns(s: Ledger, who: AccountId, amount: Balance)
    requires Transfer(s, who, who, amount).result == Ok
    ensures var r := Transfer(s, who, who, amount).post;
      && r.balances == s.balances[who := s.balances[who] - amount]
      && SumOf(r.balances) == SumOf(s.balances) - amount
      && (Conserved(s) && amount > 0 ==> !Conserved(r))
  {
    var r := Transfer(s, who, who, amount).post;
    assert r.balances == s.balances[who := s.balances[who] - amount];
    SumUpdate(s.balances, who, s.balances[who] - amount);
  }

  /** Sending `amount` from `a` to `b` and straight back restores the balances of both,
      when `b` already had an entry; otherwise `b` is left with an entry of zero. */
  lemma TransferRoundTrip(s: Ledger, a: AccountId, b: AccountId, amount: Balance)
    requires a != b
    requires Transfer(s, a, b, amount).result == Ok
    ensures var back := Transfer(Transfer(s, a, b, amount).post, b, a, amount);
      && back.result == Ok
      && back.post == (if b in s.balances then s else Ledger(s.balances[b := 0], s.totalIssuance))
  {
    var mid := Transfer(s, a, b, amount).post;
    var back := Transfer(mid, b, a, amount).post;
    if b in s.balances {
      assert back.balances == s.balances;
    } else {
      assert back.balances == s.balances[b := 0];
    }
  }

  // ---------------------------------------------------------------------------
  // genesis

  /** No listed account already has an entry in `b`. */
  predicate AllAbsent(entries: seq<(AccountId, Balance)>, b: map<AccountId, Balance>) {
    forall i :: 0 <= i < |entries| ==> entries[i].0 !in b
  }

  /** Genesis completes exactly when the listed accounts are pairwise distinct and
      none already has an entry; otherwise it panics. */
  lemma {:induction false} GenesisCompletes(s: Ledger, entries: seq<(AccountId, Balance)>)
    ensures BuildGenesis(s, entries).Built? <==> Distinct(Ids(entries)) && AllAbsent(entries, s.balances)
    decreases |entries|
  {
    if entries != [] {
      var (who, amount) := entries[0];
      var next := Ledger(s.balances[who := amount], s.totalIssuance + amount);
      var rest := entries[1..];
      assert forall i :: 0 < i < |entries| ==> entries[i] == rest[i - 1];
      if who !in s.balances {
        GenesisCompletes(next, rest);
        if Distinct(Ids(entries)) && AllAbsent(entries, s.balances) {
          assert forall i :: 0 <= i < |rest| ==> rest[i].0 != who by {
            forall i | 0 <= i < |rest| ensures rest[i].0 != who {
              assert Ids(entries)[i + 1] == rest[i].0;
            }
          }
          assert Distinct(Ids(rest)) by {
            forall i, j | 0 <= i < j < |rest| ensures Ids(rest)[i] != Ids(rest)[j] {
              assert Ids(entries)[i + 1] == Ids(rest)[i];
              assert Ids(entries)[j + 1] == Ids(rest)[j];
            }
          }
        }
        if BuildGenesis(next, rest).Built? {
          assert AllAbsent(rest, next.balances);
          assert Distinct(Ids(entries)) by {
            forall i, j | 0 <= i < j < |entries| ensures Ids(entries)[i] != Ids(entries)[j] {
              if i > 0 {
                assert Ids(rest)[i - 1] == Ids(entries)[i];
              }
              assert Ids(rest)[j - 1] == Ids(entries)[j];
            }
          }
        }
      }
    }
  }

  /** A completed genesis adds the listed balances to the ledger, keeps every
      existing entry, and raises issuance by the listed total. */
  lemma {:induction false} GenesisContents(s: Ledger, entries: seq<(AccountId, Balance)>)
    requires BuildGenesis(s, entries).Built?
    ensures var g := BuildGenesis(s, entries).state;
      && g.balances.Keys == s.balances.Keys + Elements(Ids(entries))
      && (forall i :: 0 <= i < |entries| ==> g.balances[entries[i].0] == entries[i].1)
      && (forall a :: a in s.balances ==> g.balances[a] == s.balances[a])
      && g.totalIssuance == s.totalIssuance + Amounts(entries)
    decreases |entries|
  {
    if entries != [] {
      var (who, amount) := entries[0];
      var next := Ledger(s.balances[who := amount], s.totalIssuance + amount);
      var rest := entries[1..];
      GenesisContents(next, rest);
      assert Ids(entries) == [who] + Ids(rest);
      assert Elements(Ids(entries)) == {who} + Elements(Ids(rest));
      assert forall i :: 0 < i < |entries| ==> entries[i] == rest[i - 1];
    }
  }

  /** Genesis keeps issuance equal to the sum of balances. */
  lemma {:induction false} GenesisConserves(s: Ledger, entries: seq<(AccountId, Balance)>)
    requires Conserved(s)
    requires BuildGenesis(s, entries).Built?
    ensures Conserved(BuildGenesis(s, entries).state)
    decreases |entries|
  {
    if entries != [] {
      var (who, amount) := entries[0];
      var next := Ledger(s.balances[who := amount], s.totalIssuance + amount);
      SumUpdate(s.balances, who, amount);
      GenesisConserves(next, entries[1..]);
    }
  }

  /** From the empty ledger, genesis sets issuance to the sum of the listed balances. */
  lemma GenesisFromEmpty(entries: seq<(AccountId, Balance)>)
    requires Distinct(Ids(entries))
    ensures BuildGenesis(Empty, entries).Built?
    ensures Conserved(BuildGenesis(Empty, entries).state)
    ensures BuildGenesis(Empty, entries).state.totalIssuance == Amounts(entries)
  {
    GenesisCompletes(Empty, entries);
    GenesisContents(Empty, entries);
    assert SumOf(Empty.balances) == 0;
    GenesisConserves(Empty, entries);
  }
}
