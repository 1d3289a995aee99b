# A verified model of the tutorial ledger pallets

This project models two FRAME pallets of a small on-chain ledger, and proves
properties about the model.

- **Currency pallet.** It keeps a `Balances` map from account to balance and a
  `TotalIssuance` scalar. Its calls are `mint` and `transfer`. The last tutorial
  stage adds a genesis build that inserts the listed balances.
- **Staking pallet.** It keeps `Validators` (account to `{own, delegated}`),
  `Delegators` (account to stake) and `ActiveValidators`, a list of accounts. Its
  calls are `register` and `delegate`. Its `on_initialize` hook re-selects the
  active validators at every era boundary. Its genesis build registers and
  delegates from two lists.

The three currency stages (step 1, step 4, step 6) share `mint` and `transfer`
word for word. The staging and step-6 staking pallets behave the same. One model
therefore serves each group.

The model has two layers.

- **Value layer.** `Currency` and `Staking` define each call as a pure function
  from the old storage to the outcome and the new storage. The lemmas are stated
  about these functions.
- **Storage layer.** `CurrencyPallet.Pallet` and `StakingPallet.Pallet` are classes
  whose fields are the storage items. Their methods update the fields in place, in
  the source's order: checks first, then writes. Each method's postcondition says
  that the new state is the value-layer function applied to the old state. The
  genesis builds are `for` loops over the lists, like the source's.

`Selection` holds the list operations the hook applies:

- `sort_by_key`, modelled as a stable insertion sort;
- `reverse`;
- the facts about both: sorted, permutation, and the order of tied keys.

`Scenarios` restates the pallets' unit tests as lemmas. One method runs the
`selects_validators` test on the two storage classes.

Points where the model makes a behaviour of the code explicit:

- **Self-transfer burns tokens.** `transfer` credits `to` first and then
  overwrites the sender's entry with `balance - amount`. When `sender == to`, the
  credit is lost. The sender ends with `b - amount` while issuance stays the same.
  The model keeps this behaviour (`Currency.SelfTransferBurns`). The invariant
  "the balances add up to `TotalIssuance`" is therefore proved for transfers
  between distinct accounts only.
- **`delegate` check order.** `delegate` checks "AlreadyDelegator", then
  "InsufficientFunds", then "NotRegistered". Delegating to a non-validator always
  fails and changes nothing. But a caller without enough funds gets
  "InsufficientFunds", not "NotRegistered". The model follows the code
  (`Staking.DelegateToNonValidator`).
- **Storage iteration order.** The hook reads `Validators` in the storage map's
  iteration order, which is not specified. The model takes that order as a
  parameter: any duplicate-free listing of the keys (`Staking.IsEnumeration`).
  When two validators tie on total stake, they come out in the reverse of that
  order (`Staking.RankedTies`). When no two validators tie, the order does not
  matter (`Staking.SelectIgnoresOrderWithoutTies`).
- **Which block selects one validator.** In `selects_right_number_of_validators`,
  block 0 is processed by the test builder. The test then processes blocks 1 to 6.
  It lowers the validator count to 1 just before block 6, so `[3]` is selected at
  block 6, the second era boundary.

Accounts and balances are unbounded naturals. Errors are the strings the code
returns.

## Model

| member | source | states |
|---|---|---|
| `Currency.Credit` | tutorial/step-1/pallets/src/currency.rs:29 | The `mutate` of `mint`/`transfer` creates the target's entry if it is absent, sets it to old-or-zero plus `amount`, and leaves every other entry alone. |
| `Currency.Mint` | tutorial/step-1/pallets/src/currency.rs:26-33 | `mint` raises `TotalIssuance` by exactly `amount`. |
| `Currency.MintEffect` | tutorial/step-6/pallets/src/currency.rs:23-30 | `mint` credits `to` with `amount`, treating an absent entry as 0. It creates the entry if needed and leaves every other account unchanged. |
| `Currency.MintConserves` | tutorial/step-1/pallets/src/currency.rs:16-30 | `mint` raises the sum of balances by `amount`, so it keeps "sum of balances = `TotalIssuance`". |
| `Currency.MintTwice` | tutorial/step-4/pallets/src/currency.rs:104-121 | Two mints to one account equal one mint of the total. |
| `Currency.Transfer` | tutorial/step-1/pallets/src/currency.rs:36-49 | `transfer` never changes `TotalIssuance`. |
| `Currency.TransferFailure` | tutorial/step-6/pallets/src/currency.rs:35-38 | `transfer` fails "NonExistentAccount" exactly when the sender has no entry. It fails "notEnoughBalance" exactly when the entry holds less than `amount`. Otherwise it succeeds. A failure changes nothing. |
| `Currency.TransferFailureRepeats` | tutorial/step-6/pallets/src/currency.rs:211-232 | A failed transfer repeated on the unchanged state fails the same way, with the same state. |
| `Currency.TransferEffect` | tutorial/step-4/pallets/src/currency.rs:39-42 | Between distinct accounts, a successful transfer leaves the sender `b - amount`, keeping the entry even at 0. It credits `to` with old-or-zero plus `amount`, creating the entry if needed. No other account changes. |
| `Currency.TransferConserves` | tutorial/step-6/pallets/src/currency.rs:39-42 | A transfer between distinct accounts keeps the sum of balances, and so the invariant. |
| `Currency.SelfTransferBurns` | tutorial/step-6/pallets/src/currency.rs:41-42 | A self-transfer leaves `b - amount` in the sender's entry. The sum of balances drops by `amount`, and a positive amount breaks the invariant. |
| `Currency.TransferRoundTrip` | tutorial/step-4/pallets/src/currency.rs:123-150 | A→B then B→A of the same amount restores the ledger when B had an entry. Otherwise B is left with an entry of 0. |
| `Currency.BuildGenesis` | tutorial/step-6/pallets/src/currency.rs:56-62 | The genesis loop inserts each listed balance and adds it to issuance, in list order. It panics with the source's message at the first account already present. A completed genesis keeps every earlier account and never lowers issuance. `GenesisCompletes` and `GenesisContents` give its full meaning. |
| `Currency.GenesisCompletes` | tutorial/step-6/pallets/src/currency.rs:56-62 | The currency genesis completes exactly when the listed accounts are distinct and none has an entry yet. Otherwise it panics. |
| `Currency.GenesisContents` | tutorial/step-6/pallets/src/currency.rs:57-61 | A completed genesis gives each listed account its listed balance and keeps existing entries. It raises issuance by the listed total. |
| `Currency.GenesisConserves` | tutorial/step-6/pallets/src/currency.rs:59-60 | Genesis keeps "sum of balances = `TotalIssuance`". |
| `Currency.GenesisFromEmpty` | tutorial/step-6/pallets/src/currency.rs:54-63 | From empty storage, a duplicate-free list completes, and issuance is the sum of the listed balances. |
| `CurrencyPallet.Pallet.constructor` | tutorial/step-6/pallets/src/currency.rs:12-16 | Fresh storage has no balances and zero issuance. |
| `CurrencyPallet.Pallet.Mint` | tutorial/step-4/pallets/src/currency.rs:23-30 | In-place `mint` always returns `Ok` and gives the storage `Currency.Mint` of the old storage. It keeps the issuance invariant. |
| `CurrencyPallet.Pallet.Transfer` | tutorial/step-4/pallets/src/currency.rs:32-45 | In-place `transfer` returns the result of `Currency.Transfer` and gives the storage its state. It leaves storage untouched on error and keeps the invariant for distinct accounts. |
| `CurrencyPallet.Pallet.BuildGenesis` | tutorial/step-6/pallets/src/currency.rs:56-62 | The genesis loop over the list panics when the value-level genesis panics, with the same message. Otherwise it leaves the storage the value-level genesis builds. |
| `Selection.SortByKey` | staging/pallets/src/staking.rs:107 | `sort_by_key` returns its input's elements in ascending key order. |
| `Selection.Reverse` | staging/pallets/src/staking.rs:108 | `reverse` puts element `i` at position `n - 1 - i`. |
| `Selection.ReversePermutes` | tutorial/step-6/pallets/src/staking.rs:101 | Reversing keeps the same elements. |
| `Selection.ReverseDescends` | tutorial/step-6/pallets/src/staking.rs:100-101 | An ascending sequence reversed is descending. |
| `Selection.SortIsStable` | tutorial/step-6/pallets/src/staking.rs:100 | The sort is stable: elements with equal keys keep their relative order. |
| `Selection.ReverseFlipsTies` | staging/pallets/src/staking.rs:108 | Reversal reverses the order within each group of equal keys. |
| `Selection.SortedWithoutTiesIsUnique` | staging/pallets/src/staking.rs:107 | Two key-sorted sequences with the same elements and no tied keys are equal. |
| `Staking.HasFunds` | staging/pallets/src/staking.rs:69-72 | The funds check used by both calls: the caller must have a balance entry holding at least the amount. A missing entry never qualifies, even for 0, and any entry covers 0. |
| `Staking.Register` | staging/pallets/src/staking.rs:65-77 | `register` changes nothing on error. On success, the caller was not a validator before and is one after. |
| `Staking.RegisterChecks` | staging/pallets/src/staking.rs:68-72 | "AlreadyRegistered" is reported exactly when the caller is a validator. "InsufficientFunds" is reported exactly when it is not, but has no balance entry or one below `amount`; this includes `amount = 0` with no entry. Otherwise the call succeeds. |
| `Staking.RegisterEffect` | staging/pallets/src/staking.rs:74 | A successful `register` adds one record, `{own: amount, delegated: 0}`, for the caller. Other validators, `Delegators` and `ActiveValidators` are unchanged. |
| `Staking.RegisterTwice` | tutorial/step-6/pallets/src/staking.rs:63 | A second `register` by the same caller fails "AlreadyRegistered" and keeps the first record. |
| `Staking.RegisterKeepsValid` | tutorial/step-6/pallets/src/staking.rs:60-72 | `register` keeps the staking invariant. The invariant says: delegated stakes add up to the delegators' stakes, and the active set lists distinct registered validators. |
| `Staking.Delegate` | staging/pallets/src/staking.rs:79-97 | `delegate` changes nothing on error. On success, the caller was not a delegator and now is one, and the target is a validator. |
| `Staking.DelegateChecks` | staging/pallets/src/staking.rs:82-89 | The three checks run in order: "AlreadyDelegator", then "InsufficientFunds", then "NotRegistered". Each error is reported exactly when its check is the first to fail. Otherwise the call succeeds. |
| `Staking.DelegateToNonValidator` | tutorial/step-6/pallets/src/staking.rs:82 | Delegating to a non-validator always fails and changes nothing. Once the first two checks pass, the error is "NotRegistered". |
| `Staking.DelegateEffect` | staging/pallets/src/staking.rs:91-94 | A successful `delegate` records `amount` for the caller and raises only the target's `delegated`, by `amount`. `own` and every other record are unchanged. |
| `Staking.DelegateOnce` | tutorial/step-6/pallets/src/staking.rs:77 | After a successful `delegate`, the caller's next `delegate` fails "AlreadyDelegator", whatever its target and amount. |
| `Staking.DelegateKeepsValid` | tutorial/step-6/pallets/src/staking.rs:84-87 | `delegate` keeps the staking invariant. |
| `Staking.IsEraBoundary` | staging/pallets/src/staking.rs:105 | The hook's trigger: the block number is a non-zero multiple of the era duration. So no block before the first full era triggers it. |
| `Staking.OnInitialize` | staging/pallets/src/staking.rs:102-119 | The hook never changes `Validators` or `Delegators`. Off an era boundary (including block 0) it changes nothing. |
| `Staking.Collect` | staging/pallets/src/staking.rs:106 | `iter().collect()` visits the validators in the given iteration order: the collected ids are exactly that order. `CollectMembers` gives the records. |
| `Staking.Ranked` | staging/pallets/src/staking.rs:106-108 | Collect, stable sort by total stake, then reverse. The result has one entry per validator. `RankedPermutes`, `RankedFacts` and `RankedTies` give its order. |
| `Staking.Select` | staging/pallets/src/staking.rs:109-114 | `take(ValidatorCount)` of the ranked list, keeping the ids. It holds min(count, number of validators) ids. `SelectIsTopK` gives its meaning. |
| `Staking.EmptyIsValid` | tutorial/step-6/pallets/src/staking.rs:24-31 | Empty storage satisfies the staking invariant. |
| `Staking.CollectMembers` | staging/pallets/src/staking.rs:106 | `iter().collect()` yields exactly the pairs of a validator and its record. |
| `Staking.CollectDistinct` | tutorial/step-6/pallets/src/staking.rs:99 | No collected pair appears twice. |
| `Staking.RankedPermutes` | staging/pallets/src/staking.rs:106-108 | Ranking permutes the collected pairs into non-increasing total stake, one for each validator. |
| `Staking.RankedMembers` | tutorial/step-6/pallets/src/staking.rs:99-101 | Every ranked pair is a validator paired with its own record. |
| `Staking.RankedIdsExact` | tutorial/step-6/pallets/src/staking.rs:99-101 | The ranked ids are distinct and include every validator. |
| `Staking.RankedFacts` | staging/pallets/src/staking.rs:106-108 | The ranked list holds each validator exactly once, with its record, in non-increasing total stake. |
| `Staking.SelectIsTopK` | staging/pallets/src/staking.rs:106-114 | The selection has min(`ValidatorCount`, number of validators) distinct registered ids in non-increasing total stake. No validator left out has more stake than one selected. With a large enough count, every validator is selected. |
| `Staking.RankedTies` | staging/pallets/src/staking.rs:107-108 | Validators with equal totals are ranked in the reverse of the iteration order. |
| `Staking.SelectIgnoresOrderWithoutTies` | tutorial/step-6/pallets/src/staking.rs:99-107 | Without tied totals, every iteration order gives the same selection. |
| `Staking.OnInitializeSelects` | tutorial/step-6/pallets/src/staking.rs:98-109 | On an era boundary the hook installs the top-`ValidatorCount` selection, of length min(count, number of validators). Running it again on the same block changes nothing. |
| `Staking.OnInitializeKeepsValid` | staging/pallets/src/staking.rs:105-116 | The hook keeps the staking invariant. |
| `Staking.RegisterAll` | staging/pallets/src/staking.rs:50-54 | The first genesis loop calls `register` for each listed validator in order and aborts with the first error. Its message is one of `register`'s errors. A completed loop keeps earlier validators, `Delegators` and the active set. |
| `Staking.RegisterAllCompletes` | staging/pallets/src/staking.rs:50-54 | The registration phase of genesis completes exactly when the listed validators are distinct, unregistered and funded. Otherwise genesis aborts. |
| `Staking.RegisterAllContents` | tutorial/step-6/pallets/src/staking.rs:45-49 | Completed registration gives each listed validator `{own: stake, delegated: 0}`, registers no one else and keeps `Delegators`. |
| `Staking.RegisterAllKeepsValid` | staging/pallets/src/staking.rs:50-54 | Registration at genesis keeps the invariant and the active set. |
| `Staking.DelegateAll` | staging/pallets/src/staking.rs:56-59 | The second genesis loop calls `delegate` for each listed delegation in order and aborts with the first error. Its message is one of `delegate`'s errors. A completed loop keeps the set of validators, every earlier delegator and the active set. |
| `Staking.DelegateAllCompletes` | staging/pallets/src/staking.rs:56-59 | The delegation phase of genesis completes exactly when the delegator ids are distinct, none is already a delegator, each can fund its stake and each delegatee is a registered validator. Otherwise genesis aborts. |
| `Staking.DelegateAllContents` | tutorial/step-6/pallets/src/staking.rs:51-54 | Completed delegation records each listed delegator with its listed stake and keeps earlier delegators. The set of validators and each validator's own stake are unchanged. Each validator's delegated stake rises by the total staked on it, and the active set is unchanged. |
| `Staking.DelegateAllKeepsValid` | staging/pallets/src/staking.rs:56-59 | Delegation at genesis keeps the invariant and the active set. |
| `Staking.BuildGenesis` | staging/pallets/src/staking.rs:47-60 | The staking genesis runs all registrations, then all delegations. Any abort carries a `register` or `delegate` error. A completed genesis keeps earlier validators, delegators and the active set. |
| `Staking.GenesisIsValid` | tutorial/step-6/pallets/src/staking.rs:42-55 | A completed genesis from empty storage satisfies the invariant, and the active set is still empty. |
| `StakingPallet.Pallet.constructor` | staging/pallets/src/staking.rs:26-33 | Fresh storage beside a currency pallet has no validators, no delegators and an empty active set. |
| `StakingPallet.Pallet.Register` | tutorial/step-6/pallets/src/staking.rs:60-72 | In-place `register` returns the result of `Staking.Register` and gives the storage its state. It never writes `Balances` and keeps the invariant. |
| `StakingPallet.Pallet.Delegate` | tutorial/step-6/pallets/src/staking.rs:74-90 | In-place `delegate` returns the result of `Staking.Delegate` and gives the storage its state. It never writes `Balances` and keeps the invariant. |
| `StakingPallet.Pallet.OnInitialize` | tutorial/step-6/pallets/src/staking.rs:95-112 | The in-place hook, with its local sort and reverse, leaves the storage `Staking.OnInitialize` describes. It keeps the invariant. |
| `StakingPallet.Pallet.BuildGenesis` | staging/pallets/src/staking.rs:47-60 | The two genesis loops call `register` and `delegate` in list order. They panic with the first error and otherwise leave the storage of `Staking.BuildGenesis`. |
| `Scenarios.InitialStateWorks` | tutorial/step-6/pallets/src/currency.rs:133-140 | The default genesis gives ALICE and BOB 100 each, EVE no entry, and issuance 200. This is also the hand-written state of tutorial/step-4/pallets/src/currency.rs:84-93. |
| `Scenarios.ExtBuilderWorks` | tutorial/step-6/pallets/src/currency.rs:143-148 | Adding (EVE, 42) gives EVE 42 and issuance 242. |
| `Scenarios.DuplicateGenesisFails` | tutorial/step-6/pallets/src/currency.rs:151-160 | Listing EVE twice panics with "duplicate balance in genesis". |
| `Scenarios.TestMint` | tutorial/step-6/pallets/src/currency.rs:163-179 | Mints of 100 to BOB, then to EVE, give 200/300, then 100/400. |
| `Scenarios.TransferWorks` | tutorial/step-4/pallets/src/currency.rs:123-150 | ALICE→BOB 50 gives 50/150 with issuance 200. BOB→ALICE 50 restores the initial state. |
| `Scenarios.TransferFromNonExistentFails` | tutorial/step-4/pallets/src/currency.rs:152-174 | EVE's transfer fails "NonExistentAccount" twice and changes nothing. |
| `Scenarios.RunBlocks` | staging/pallets/src/staking.rs:229-233 | Repeated `next_block` never changes `Validators` or `Delegators`. |
| `Scenarios.BasicSetupWorks` | staging/pallets/src/staking.rs:236-254 | The default builder funds 1, 2 and 3 with 10, 20 and 30. Genesis then registers exactly these three, with those self-stakes, and an empty active set. |
| `Scenarios.DelegatorGenesis` | staging/pallets/src/staking.rs:184-193 | The builder's balances list with 42 pushed gives the currency genesis funds 10, 20, 30 and 30 and issuance 90. With those funds and 42 delegating 30 to 1, the staking genesis records 42 and gives 1 a delegated stake of 30. |
| `Scenarios.SelectDefault` | staging/pallets/src/staking.rs:173 | For the default stakes, every iteration order ranks 3, 2, 1. |
| `Scenarios.SelectDelegated` | staging/pallets/src/staking.rs:278 | With the delegation, every iteration order ranks 1, 3, 2. |
| `Scenarios.SelectsValidators` | staging/pallets/src/staking.rs:257-273 | Blocks 0 to 2 leave the active set empty. Block 3 selects [3, 2]. |
| `Scenarios.ConsidersDelegators` | tutorial/step-6/pallets/src/staking.rs:267-282 | Starting from the genesis built with 42 delegating 30 to validator 1, genesis completes and records 42. Blocks 0 to 2 then select nothing, and block 3 selects [1, 3]. |
| `Scenarios.SelectsRightNumberOfValidators` | tutorial/step-6/pallets/src/staking.rs:285-307 | With count 3, block 3 selects [3, 2, 1], and blocks 4 and 5 keep it. With count 1, block 6 selects [3]. |
| `Scenarios.SelectsValidatorsInStorage` | tutorial/step-6/pallets/src/staking.rs:248-264 | On the two storage classes, genesis followed by the hook on blocks 0 to 2 leaves the active set empty. Block 3 then sets it to [3, 2]. |

## Left out

- The signed origin (`ensure_signed`) is the explicit caller argument. The `BadOrigin` error is not modelled.
- `Balance` is `u128` in the source. The model uses unbounded naturals, so an overflow in `+` (mint, credit, issuance, delegated stake, the sort key) is not modelled.
- The storage map's iteration order is a parameter of the hook, not computed. In a run of several blocks the same order is used throughout, since `Validators` does not change.
- `sort_by_key` and `reverse` work in place on a local `Vec` in the source. The model computes them as values on sequences; the hook method assigns the results to a local variable.
- `Weight` return values, the Encode/Decode/TypeInfo derives and the FRAME macros are not modelled.
- `Staking.OnInitialize` and the hook method require a non-zero `EraDuration`: with zero, the source's `now % EraDuration` panics, and that panic is not modelled.
- The transactional storage layer is not modelled. Every check precedes every write, so a failed call writes nothing without a rollback.
- Genesis panics are an `Option`/`Genesis` outcome, not an abort. Storage written before the panic stays in the model's state, whereas the source discards the whole genesis.
- The test runtime, `ExtBuilder`, `TestState` and the static `ValidatorCount` are not modelled. The tests are lemmas over values, plus one method over the storage classes.
- tutorial/step-0/pallets/src/currency.rs (an empty pallet) and tutorial/step-5/runtime/build.rs (build plumbing) hold no logic and are not part of this model.
