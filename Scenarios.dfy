/** The pallets' unit tests, restated as facts about the model. Accounts are the
    tests' numeric ids (ALICE = 1, BOB = 2, EVE = 3). The staking tests hold for every
    order in which the `Validators` map might be iterated. */
module Scenarios {
  import opened Support
  import opened Selection
  import C = Currency
  import S = Staking
  import CurrencyPallet
  import StakingPallet

  const Alice: AccountId := 1
  const Bob: AccountId := 2
  const Eve: AccountId := 3

  // ---------------------------------------------------------------------------
  // currency

  /** The currency tests' default genesis list. */
  const DefaultBalances: seq<(AccountId, Balance)> := [(Alice, 100), (Bob, 100)]

  /** What that genesis produces; it is also the state the earlier stage's tests
      write into empty storage by hand. */
  const Initial := C.Ledger(map[Alice := 100, Bob := 100], 200)

  /** `initial_state_works`: ALICE and BOB hold 100, EVE has no entry, issuance is 200. */
  lemma InitialStateWorks()
    ensures C.BuildGenesis(C.Empty, DefaultBalances) == Built(Initial)
    ensures Eve !in Initial.balances && C.Conserved(Initial)
  {
    var entries := DefaultBalances;
    var one := C.Ledger(map[Alice := 100], 100);
    assert C.BuildGenesis(C.Empty, entries) == C.BuildGenesis(one, entries[1..]);
    assert entries[1..] == [(Bob, 100)];
    assert C.BuildGenesis(one, [(Bob, 100)]) == C.BuildGenesis(Initial, []);
    C.GenesisFromEmpty(entries);
  }

  /** `ext_builder_works`: adding `(EVE, 42)` to the list gives EVE 42 and issuance 242. */
  lemma ExtBuilderWorks()
    ensures C.BuildGenesis(C.Empty, DefaultBalances + [(Eve, 42)])
         == Built(C.Ledger(map[Alice := 100, Bob := 100, Eve := 42], 242))
  {
    var entries := DefaultBalances + [(Eve, 42)];
    var one := C.Ledger(map[Alice := 100], 100);
    assert C.BuildGenesis(C.Empty, entries) == C.BuildGenesis(one, entries[1..]);
    assert entries[1..] == [(Bob, 100), (Eve, 42)];
    assert C.BuildGenesis(one, [(Bob, 100), (Eve, 42)]) == C.BuildGenesis(Initial, [(Eve, 42)]);
    var three := C.Ledger(Initial.balances[Eve := 42], 242);
    assert three.balances == map[Alice := 100, Bob := 100, Eve := 42];
    assert C.BuildGenesis(Initial, [(Eve, 42)]) == C.BuildGenesis(three, []);
  }

  /** `duplicate_genesis_fails`: listing EVE twice panics. */
  lemma DuplicateGenesisFails()
    ensures C.BuildGenesis(C.Empty, DefaultBalances + [(Eve, 42), (Eve, 43)])
         == Panicked("duplicate balance in genesis")
  {
    var entries := DefaultBalances + [(Eve, 42), (Eve, 43)];
    var one := C.Ledger(map[Alice := 100], 100);
    var three := C.Ledger(map[Alice := 100, Bob := 100, Eve := 42], 242);
    assert C.BuildGenesis(C.Empty, entries) == C.BuildGenesis(one, entries[1..]);
    assert entries[1..] == [(Bob, 100), (Eve, 42), (Eve, 43)];
    assert C.BuildGenesis(one, [(Bob, 100), (Eve, 42), (Eve, 43)]) == C.BuildGenesis(Initial, [(Eve, 42), (Eve, 43)]);
    assert C.BuildGenesis(Initial, [(Eve, 42), (Eve, 43)]) == C.BuildGenesis(three, [(Eve, 43)]);
  }

  /** `test_mint`: minting 100 to BOB gives 200 and issuance 300; then 100 to the
      absent EVE creates her entry at 100 and issuance is 400. */
  lemma TestMint()
    ensures var first := C.Mint(Initial, Bob, 100);
      && first == C.Ledger(map[Alice := 100, Bob := 200], 300)
      && C.Mint(first, Eve, 100) == C.Ledger(map[Alice := 100, Bob := 200, Eve := 100], 400)
  {
    var first := C.Mint(Initial, Bob, 100);
    assert first.balances == map[Alice := 100, Bob := 200];
    assert C.Mint(first, Eve, 100).balances == map[Alice := 100, Bob := 200, Eve := 100];
  }

  /** `transfer_works`: ALICE sends BOB 50 (50 and 150, issuance 200) and BOB sends it
      back, which restores the initial state. */
  lemma TransferWorks()
    ensures var there := C.Transfer(Initial, Alice, Bob, 50);
      && there == Step(Ok, C.Ledger(map[Alice := 50, Bob := 150], 200))
      && C.Transfer(there.post, Bob, Alice, 50) == Step(Ok, Initial)
  {
    var there := C.Transfer(Initial, Alice, Bob, 50);
    assert there.post.balances == map[Alice := 50, Bob := 150];
    C.TransferRoundTrip(Initial, Alice, Bob, 50);
  }

  /** `transfer_from_non_existent_fails`: EVE has no entry, so her transfer fails with
      "NonExistentAccount" and changes nothing, and so does the same call again. */
  lemma TransferFromNonExistentFails()
    ensures C.Transfer(Initial, Eve, Alice, 10) == Step(Err("NonExistentAccount"), Initial)
    ensures C.Transfer(C.Transfer(Initial, Eve, Alice, 10).post, Eve, Alice, 10)
         == Step(Err("NonExistentAccount"), Initial)
  {
  }

  // ---------------------------------------------------------------------------
  // staking

  /** The staking tests' default validators: account `i` with self-stake `10 * i`. */
  const DefaultValidators: seq<(AccountId, Balance)> := [(1, 10), (2, 20), (3, 30)]

  /** The tests' pallet configuration: `ValidatorCount` and `EraDuration` = 3. */
  function TestConfig(count: nat): S.Config {
    S.Config(count, 3)
  }

  /** `next_block` run `n` times from block `now`: the hook is called on each block
      number in turn. The validators never change, so one enumeration serves. */
  function RunBlocks(s: S.StakingState, now: nat, n: nat, config: S.Config, order: seq<AccountId>): (r: S.StakingState)
    requires config.eraDuration > 0
    requires S.IsEnumeration(order, s.validators)
    ensures r.validators == s.validators && r.delegators == s.delegators
    decreases n
  {
    if n == 0 then s
    else RunBlocks(S.OnInitialize(s, now, config, order), now + 1, n - 1, config, order)
  }

  /** The stakes the default genesis registers. */
  const Stakes := map[1 := S.ValidatorStake(10, 0), 2 := S.ValidatorStake(20, 0), 3 := S.ValidatorStake(30, 0)]

  /** The same, after account 42 delegates 30 to validator 1. */
  const StakesWithDelegation := map[1 := S.ValidatorStake(10, 30), 2 := S.ValidatorStake(20, 0), 3 := S.ValidatorStake(30, 0)]

  /** The balances the test builder funds: each account exactly its listed stake. */
  const DefaultFunds := map[1 := 10, 2 := 20, 3 := 30]

  /** `basic_setup_works`: genesis registers 1, 2 and 3 with self-stakes 10, 20, 30 and
      no delegation, and leaves the active set empty. */
  lemma BasicSetupWorks()
    ensures C.BuildGenesis(C.Empty, DefaultValidators) == Built(C.Ledger(DefaultFunds, 60))
    ensures S.BuildGenesis(S.Empty, DefaultFunds, DefaultValidators, []) == Built(S.StakingState(Stakes, map[], []))
    ensures |Stakes| == 3
  {
    C.GenesisCompletes(C.Empty, DefaultValidators);
    C.GenesisContents(C.Empty, DefaultValidators);
    assert C.BuildGenesis(C.Empty, DefaultValidators).state.balances == DefaultFunds;
    var registered := S.RegisterAll(S.Empty, DefaultFunds, DefaultValidators);
    assert registered.Built?;
  }

  /** `considers_delegators`: with 42 funded 30 and delegating it to 1, genesis records
      the delegation and raises 1's delegated stake to 30. */
  lemma DelegatorGenesis()
    ensures C.BuildGenesis(C.Empty, DefaultValidators + [(42, 30)]) == Built(C.Ledger(DefaultFunds[42 := 30], 90))
    ensures S.BuildGenesis(S.Empty, DefaultFunds[42 := 30], DefaultValidators, [(42, 1, 30)])
         == Built(S.StakingState(StakesWithDelegation, map[42 := 30], []))
  {
    var entries := DefaultValidators + [(42, 30)];
    assert entries == [(1, 10), (2, 20), (3, 30), (42, 30)];
    assert C.BuildGenesis(C.Empty, entries) == C.BuildGenesis(C.Ledger(map[1 := 10], 10), entries[1..]);
    assert C.BuildGenesis(C.Ledger(map[1 := 10], 10), entries[1..])
        == C.BuildGenesis(C.Ledger(map[1 := 10, 2 := 20], 30), entries[2..]);
    assert C.BuildGenesis(C.Ledger(map[1 := 10, 2 := 20], 30), entries[2..])
        == C.BuildGenesis(C.Ledger(map[1 := 10, 2 := 20, 3 := 30], 60), entries[3..]);
    assert C.BuildGenesis(C.Ledger(map[1 := 10, 2 := 20, 3 := 30], 60), entries[3..])
        == C.BuildGenesis(C.Ledger(DefaultFunds[42 := 30], 90), []);
    var funds := DefaultFunds[42 := 30];
    var registered := S.RegisterAll(S.Empty, funds, DefaultValidators);
    assert registered == Built(S.StakingState(Stakes, map[], []));
    var delegated := S.Delegate(registered.state, funds, 42, 1, 30);
    assert delegated.post.validators == StakesWithDelegation;
  }

  lemma ThreeAscendingSorted<T>(x: T, y: T, z: T, key: T -> nat)
    requires key(x) < key(y) < key(z)
    ensures SortedBy([x, y, z], key)
  {
  }

  lemma ThreeAscendingUntied<T>(x: T, y: T, z: T, key: T -> nat)
    requires key(x) < key(y) < key(z)
    ensures var s := [x, y, z]; forall i, j :: 0 <= i < j < |s| ==> key(s[i]) != key(s[j])
  {
  }

  /** Three entries already in ascending key order are left as they are by the sort. */
  lemma SortThreeAscending<T>(x: T, y: T, z: T, key: T -> nat)
    requires key(x) < key(y) < key(z)
    ensures SortByKey([x, y, z], key) == [x, y, z]
  {
    ThreeAscendingSorted(x, y, z, key);
    ThreeAscendingUntied(x, y, z, key);
    var s := [x, y, z];
    SortedWithoutTiesIsUnique(s, SortByKey(s, key), key);
  }

  /** Three distinct accounts listed once each enumerate a map with exactly those keys. */
  lemma EnumerateThree(stakes: map<AccountId, S.ValidatorStake>, a: AccountId, b: AccountId, c: AccountId)
    requires stakes.Keys == {a, b, c} && a != b && b != c && a != c
    ensures S.IsEnumeration([a, b, c], stakes)
    ensures S.Collect(stakes, [a, b, c]) == [(a, stakes[a]), (b, stakes[b]), (c, stakes[c])]
  {
    assert Elements([a, b, c]) == {a, b, c};
    var collected := S.Collect(stakes, [a, b, c]);
    assert |collected| == 3;
    assert collected[0] == (a, stakes[a]) && collected[1] == (b, stakes[b]) && collected[2] == (c, stakes[c]);
  }

  lemma ReverseThree<T>(x: T, y: T, z: T)
    ensures Reverse([x, y, z]) == [z, y, x]
  {
    var r := Reverse([x, y, z]);
    assert |r| == 3;
    assert r[0] == z && r[1] == y && r[2] == x;
  }

  /** The sort and reversal on one concrete enumeration of three tie-free entries
      listed in ascending order of total stake. */
  lemma RankAscending(stakes: map<AccountId, S.ValidatorStake>, a: AccountId, b: AccountId, c: AccountId)
    requires stakes.Keys == {a, b, c} && a != b && b != c && a != c
    requires S.Total(stakes[a]) < S.Total(stakes[b]) < S.Total(stakes[c])
    ensures S.IsEnumeration([a, b, c], stakes)
    ensures S.Ranked(stakes, [a, b, c]) == [(c, stakes[c]), (b, stakes[b]), (a, stakes[a])]
  {
    EnumerateThree(stakes, a, b, c);
    var ea, eb, ec := (a, stakes[a]), (b, stakes[b]), (c, stakes[c]);
    SortThreeAscending(ea, eb, ec, S.TotalStake);
    ReverseThree(ea, eb, ec);
  }

  /** Selecting from three ranked entries with distinct totals takes a prefix of the
      ranking, whatever enumeration fed it. */
  lemma SelectFromRanked(stakes: map<AccountId, S.ValidatorStake>, a: AccountId, b: AccountId, c: AccountId,
                         order: seq<AccountId>, count: nat)
    requires stakes.Keys == {a, b, c} && a != b && b != c && a != c
    requires S.Total(stakes[a]) < S.Total(stakes[b]) < S.Total(stakes[c])
    requires S.IsEnumeration(order, stakes)
    ensures S.Select(stakes, order, count) == [c, b, a][..Min(count, 3)]
  {
    RankAscending(stakes, a, b, c);
    S.SelectIgnoresOrderWithoutTies(stakes, order, [a, b, c], count);
    var ranked := S.Ranked(stakes, [a, b, c]);
    var taken := ranked[..Min(count, 3)];
    assert Ids(taken) == [c, b, a][..Min(count, 3)];
  }

  /** The default stakes give the ranking 3, 2, 1 under every enumeration. */
  lemma SelectDefault(order: seq<AccountId>, count: nat)
    requires Distinct(order) && Elements(order) == {1, 2, 3}
    ensures S.Select(Stakes, order, count) == [3, 2, 1][..Min(count, 3)]
  {
    SelectFromRanked(Stakes, 1, 2, 3, order, count);
  }

  /** With 1's delegation counted (totals 40, 20 and 30) the ranking is 1, 3, 2. */
  lemma SelectDelegated(order: seq<AccountId>, count: nat)
    requires Distinct(order) && Elements(order) == {1, 2, 3}
    ensures S.Select(StakesWithDelegation, order, count) == [1, 3, 2][..Min(count, 3)]
  {
    SelectFromRanked(StakesWithDelegation, 2, 3, 1, order, count);
  }

  /** `selects_validators`: blocks 0 (processed at genesis), 1 and 2 leave the active set
      empty; block 3 ends the first era and selects [3, 2]. */
  lemma SelectsValidators(order: seq<AccountId>)
    requires Distinct(order) && Elements(order) == {1, 2, 3}
    ensures var genesis := S.StakingState(Stakes, map[], []);
      && RunBlocks(genesis, 0, 3, TestConfig(2), order).activeValidators == []
      && RunBlocks(genesis, 0, 4, TestConfig(2), order).activeValidators == [3, 2]
  {
    SelectDefault(order, 2);
  }

  /** `considers_delegators`: genesis with 42 delegating 30 to 1 records 42 as a
      delegator; with 1's total raised to 40, blocks 0 to 2 select nothing and block 3
      selects [1, 3]. */
  lemma ConsidersDelegators(order: seq<AccountId>)
    requires Distinct(order) && Elements(order) == {1, 2, 3}
    ensures var g := S.BuildGenesis(S.Empty, DefaultFunds[42 := 30], DefaultValidators, [(42, 1, 30)]);
      && g.Built?
      && 42 in g.state.delegators
      && S.IsEnumeration(order, g.state.validators)
      && RunBlocks(g.state, 0, 3, TestConfig(2), order).activeValidators == []
      && RunBlocks(g.state, 0, 4, TestConfig(2), order).activeValidators == [1, 3]
  {
    DelegatorGenesis();
    SelectDelegated(order, 2);
  }

  /** `selects_right_number_of_validators`: with `ValidatorCount` raised to 3 before
      block 3, all three are selected; blocks 4 and 5 change nothing; with the count
      lowered to 1, block 6 selects [3] alone. */
  lemma SelectsRightNumberOfValidators(order: seq<AccountId>)
    requires Distinct(order) && Elements(order) == {1, 2, 3}
    ensures var genesis := S.StakingState(Stakes, map[], []);
      var early := RunBlocks(genesis, 0, 3, TestConfig(2), order);
      var era1 := RunBlocks(early, 3, 1, TestConfig(3), order);
      var later := RunBlocks(era1, 4, 2, TestConfig(3), order);
      && early.activeValidators == []
      && era1.activeValidators == [3, 2, 1]
      && later.activeValidators == [3, 2, 1]
      && RunBlocks(later, 6, 1, TestConfig(1), order).activeValidators == [3]
  {
    SelectDefault(order, 3);
    SelectDefault(order, 1);
  }

  // ---------------------------------------------------------------------------
  // the same test on the pallets' storage

  /** `selects_validators` as the test runs it: both genesis builds on fresh storage,
      then the hook on blocks 0 to 3 in turn. */
  method SelectsValidatorsInStorage(order: seq<AccountId>) returns (afterBlock2: seq<AccountId>, afterBlock3: seq<AccountId>)
    requires Distinct(order) && Elements(order) == {1, 2, 3}
    ensures afterBlock2 == [] && afterBlock3 == [3, 2]
  {
    var currency := new CurrencyPallet.Pallet();
    var currencyPanic := currency.BuildGenesis(DefaultValidators);
    BasicSetupWorks();
    assert currency.balances == DefaultFunds;
    var staking := new StakingPallet.Pallet(currency);
    var stakingPanic := staking.BuildGenesis(DefaultValidators, []);
    assert staking.State() == S.StakingState(Stakes, map[], []);
    assert S.IsEnumeration(order, Stakes);
    // block 0, processed by the test builder, then blocks 1 and 2
    staking.OnInitialize(0, TestConfig(2), order);
    staking.OnInitialize(1, TestConfig(2), order);
    staking.OnInitialize(2, TestConfig(2), order);
    afterBlock2 := staking.activeValidators;
    SelectDefault(order, 2);
    staking.OnInitialize(3, TestConfig(2), order);
    afterBlock3 := staking.activeValidators;
  }
}
