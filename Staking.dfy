/** The staking pallet, as values: validator records `{own, delegated}`, delegator
    records, and the active validator set, with `register`, `delegate`, the era
    hook that re-ranks validators, and the genesis build. The staging pallet and
    the last tutorial stage behave identically. Calls read the currency pallet's
    `Balances` map, passed in as `balances`, and never write it. */
module Staking {
  import opened Support
  import opened Selection

  datatype ValidatorStake = ValidatorStake(own: Balance, delegated: Balance)

  /** The pallet's configuration: `ValidatorCount` and `EraDuration`. */
  datatype Config = Config(validatorCount: nat, eraDuration: nat)

  datatype StakingState = StakingState(
    validators: map<AccountId, ValidatorStake>,
    delegators: map<AccountId, Balance>,
    activeValidators: seq<AccountId>)

  /** Storage before genesis; `ActiveValidators` is a value query, so empty. */
  const Empty := StakingState(map[], map[], [])

  function Total(stake: ValidatorStake): nat {
    stake.own + stake.delegated
  }

  /** The key the hook sorts by: `stake.own + stake.delegated`. */
  function TotalStake(entry: (AccountId, ValidatorStake)): nat {
    Total(entry.1)
  }

  /** The caller has a balance entry holding at least `amount`. An absent entry never
      qualifies, not even for a zero amount, and any entry covers a zero amount. */
  predicate HasFunds(balances: map<AccountId, Balance>, who: AccountId, amount: Balance)
    ensures HasFunds(balances, who, amount) ==> who in balances
    ensures amount == 0 && who in balances ==> HasFunds(balances, who, amount)
  {
    who in balances && balances[who] >= amount
  }

  /** `register(origin, amount)`, the signed caller being `who`. */
  function Register(s: StakingState, balances: map<AccountId, Balance>, who: AccountId, amount: Balance): (r: Step<StakingState>)
    ensures r.result != Ok ==> r.post == s
    ensures r.result == Ok ==> who !in s.validators && who in r.post.validators
  {
    if who in s.validators then Step(Err("AlreadyRegistered"), s)
    else if !HasFunds(balances, who, amount) then Step(Err("InsufficientFunds"), s)
    else Step(Ok, s.(validators := s.validators[who := ValidatorStake(amount, 0)]))
  }

  /** `delegate(origin, to, amount)`, the signed caller being `who`. All three checks
      run before the two writes. */
  function Delegate(s: StakingState, balances: map<AccountId, Balance>, who: AccountId, to: AccountId, amount: Balance): (r: Step<StakingState>)
    ensures r.result != Ok ==> r.post == s
    ensures r.result == Ok ==> who !in s.delegators && who in r.post.delegators && to in s.validators
  {
    if who in s.delegators then Step(Err("AlreadyDelegator"), s)
    else if !HasFunds(balances, who, amount) then Step(Err("InsufficientFunds"), s)
    else if to !in s.validators then Step(Err("NotRegistered"), s)
    else
      var stake := s.validators[to];
      Step(Ok, s.(delegators := s.delegators[who := amount],
                  validators := s.validators[to := stake.(delegated := stake.delegated + amount)]))
  }

  /** `order` is one way of iterating over `Validators`: each key exactly once. The
      storage map's iteration order is not specified, so the hook takes it as input. */
  predicate IsEnumeration(order: seq<AccountId>, validators: map<AccountId, ValidatorStake>) {
    Distinct(order) && Elements(order) == validators.Keys
  }

  /** `Validators::iter().collect()`, in the order `order`. */
  function Collect(validators: map<AccountId, ValidatorStake>, order: seq<AccountId>): (r: seq<(AccountId, ValidatorStake)>)
    requires forall i :: 0 <= i < |order| ==> order[i] in validators
    ensures Ids(r) == order
  {
    seq(|order|, i requires 0 <= i < |order| => (order[i], validators[order[i]]))
  }

  /** The collected validators after `sort_by_key` on the total and `reverse`. */
  function Ranked(validators: map<AccountId, ValidatorStake>, order: seq<AccountId>): (r: seq<(AccountId, ValidatorStake)>)
    requires IsEnumeration(order, validators)
    ensures |r| == |order|
  {
    Reverse(SortByKey(Collect(validators, order), TotalStake))
  }

  /** `take(ValidatorCount)` of the ranked list, keeping the account ids. */
  function Select(validators: map<AccountId, ValidatorStake>, order: seq<AccountId>, count: nat): (r: seq<AccountId>)
    requires IsEnumeration(order, validators)
    ensures |r| == Min(count, |validators|)
  {
    DistinctCardinality(order);
    var ranked := Ranked(validators, order);
    Ids(ranked[..Min(count, |ranked|)])
  }

  /** The hook acts only when `now` is a non-zero multiple of the era duration. */
  predicate IsEraBoundary(now: nat, eraDuration: nat)
    requires eraDuration > 0
    ensures IsEraBoundary(now, eraDuration) ==> now >= eraDuration
    ensures now < eraDuration ==> !IsEraBoundary(now, eraDuration)
  {
    now % eraDuration == 0 && now != 0
  }

  /** `on_initialize(now)`: on an era boundary, overwrite `ActiveValidators` with the
      selection; otherwise do nothing. Only `ActiveValidators` is ever written. */
  function OnInitialize(s: StakingState, now: nat, config: Config, order: seq<AccountId>): (r: StakingState)
    requires config.eraDuration > 0
    requires IsEnumeration(order, s.validators)
    ensures r.validators == s.validators && r.delegators == s.delegators
    ensures !IsEraBoundary(now, config.eraDuration) ==> r == s
  {
    if IsEraBoundary(now, config.eraDuration) then
      s.(activeValidators := Select(s.validators, order, config.validatorCount))
    else s
  }

  /** Genesis, first part: `register` for every listed validator, in list order; the
      first error aborts genesis (`assert_ok!`). */
  function RegisterAll(s: StakingState, balances: map<AccountId, Balance>, validators: seq<(AccountId, Balance)>): (r: Genesis<StakingState>)
    ensures r.Panicked? ==> r.message in {"AlreadyRegistered", "InsufficientFunds"}
    ensures r.Built? ==> s.validators.Keys <= r.state.validators.Keys && r.state.delegators == s.delegators
    ensures r.Built? ==> r.state.activeValidators == s.activeValidators
    decreases |validators|
  {
    if validators == [] then Built(s)
    else
      var step := Register(s, balances, validators[0].0, validators[0].1);
      if step.result.Err? then Panicked(step.result.message)
      else RegisterAll(step.post, balances, validators[1..])
  }

  /** Genesis, second part: `delegate` for every listed `(delegator, delegatee, stake)`. */
  function DelegateAll(s: StakingState, balances: map<AccountId, Balance>, delegators: seq<(AccountId, AccountId, Balance)>): (r: Genesis<StakingState>)
    ensures r.Panicked? ==> r.message in {"AlreadyDelegator", "InsufficientFunds", "NotRegistered"}
    ensures r.Built? ==> r.state.validators.Keys == s.validators.Keys && s.delegators.Keys <= r.state.delegators.Keys
    ensures r.Built? ==> r.state.activeValidators == s.activeValidators
    decreases |delegators|
  {
    if delegators == [] then Built(s)
    else
      var (who, to, amount) := delegators[0];
      var step := Delegate(s, balances, who, to, amount);
      if step.result.Err? then Panicked(step.result.message)
      else DelegateAll(step.post, balances, delegators[1..])
  }

  /** The whole genesis build: all registrations, then all delegations. */
  function BuildGenesis(s: StakingState, balances: map<AccountId, Balance>,
                        validators: seq<(AccountId, Balance)>,
                        delegators: seq<(AccountId, AccountId, Balance)>): (r: Genesis<StakingState>)
    ensures r.Panicked? ==> r.message in {"AlreadyRegistered", "InsufficientFunds", "AlreadyDelegator", "NotRegistered"}
    ensures r.Built? ==> s.validators.Keys <= r.state.validators.Keys && s.delegators.Keys <= r.state.delegators.Keys
    ensures r.Built? ==> r.state.activeValidators == s.activeValidators
  {
    match RegisterAll(s, balances, validators)
    case Panicked(message) => Panicked(message)
    case Built(registered) => DelegateAll(registered, balances, delegators)
  }

  // ---------------------------------------------------------------------------
  // The staking invariant

  /** Each validator's delegated stake, as a map. */
  function DelegatedStakes(validators: map<AccountId, ValidatorStake>): (r: map<AccountId, nat>)
    ensures r.Keys == validators.Keys
  {
    map a | a in validators :: validators[a].delegated
  }

  /** What every call keeps: delegated stake across validators adds up to the amounts
      on record for delegators, and the active set lists distinct registered validators. */
  ghost predicate Valid(s: StakingState) {
    && SumOf(DelegatedStakes(s.validators)) == SumOf(s.delegators)
    && Distinct(s.activeValidators)
    && forall i :: 0 <= i < |s.activeValidators| ==> s.activeValidators[i] in s.validators
  }

  lemma EmptyIsValid()
    ensures Valid(Empty)
  {
    assert DelegatedStakes(Empty.validators) == map[];
  }

  // ---------------------------------------------------------------------------
  // register

  /** `register` reports "AlreadyRegistered" before "InsufficientFunds", and succeeds
      exactly when the caller is not yet a validator and has a balance entry of at
      least `amount`. */
  lemma RegisterChecks(s: StakingState, balances: map<AccountId, Balance>, who: AccountId, amount: Balance)
    ensures var r := Register(s, balances, who, amount).result;
      && (r == Err("AlreadyRegistered") <==> who in s.validators)
      && (r == Err("InsufficientFunds") <==> who !in s.validators && !HasFunds(balances, who, amount))
      && (r == Ok <==> who !in s.validators && HasFunds(balances, who, amount))
  {
  }

  /** A successful `register` adds exactly one record, `{own: amount, delegated: 0}`
      for the caller, and changes nothing else. */
  lemma RegisterEffect(s: StakingState, balances: map<AccountId, Balance>, who: AccountId, amount: Balance)
    requires Register(s, balances, who, amount).result == Ok
    ensures var t := Register(s, balances, who, amount).post;
      && t.validators.Keys == s.validators.Keys + {who}
      && |t.validators| == |s.validators| + 1
      && t.validators[who] == ValidatorStake(amount, 0)
      && (forall a :: a in s.validators ==> t.validators[a] == s.validators[a])
      && t.delegators == s.delegators
      && t.activeValidators == s.activeValidators
  {
  }

  /** Registering twice: the second call fails "AlreadyRegistered" and the record
      from the first call stays. */
  lemma RegisterTwice(s: StakingState, balances: map<AccountId, Balance>, who: AccountId, x: Balance, y: Balance)
    requires Register(s, balances, who, x).result == Ok
    ensures var first := Register(s, balances, who, x).post;
      && Register(first, balances, who, y) == Step(Err("AlreadyRegistered"), first)
      && first.validators[who] == ValidatorStake(x, 0)
  {
  }

  lemma RegisterKeepsValid(s: StakingState, balances: map<AccountId, Balance>, who: AccountId, amount: Balance)
    requires Valid(s)
    ensures Valid(Register(s, balances, who, amount).post)
  {
    var t := Register(s, balances, who, amount).post;
    if t != s {
      assert DelegatedStakes(t.validators) == DelegatedStakes(s.validators)[who := 0];
      SumUpdate(DelegatedStakes(s.validators), who, 0);
    }
  }

  // ---------------------------------------------------------------------------
  // delegate

  /** `delegate` checks "AlreadyDelegator", then "InsufficientFunds", then
      "NotRegistered", and succeeds exactly when all three pass. */
  lemma DelegateChecks(s: StakingState, balances: map<AccountId, Balance>, who: AccountId, to: AccountId, amount: Balance)
    ensures var r := Delegate(s, balances, who, to, amount).result;
      && (r == Err("AlreadyDelegator") <==> who in s.delegators)
      && (r == Err("InsufficientFunds") <==> who !in s.delegators && !HasFunds(balances, who, amount))
      && (r == Err("NotRegistered") <==> who !in s.delegators && HasFunds(balances, who, amount) && to !in s.validators)
      && (r == Ok <==> who !in s.delegators && HasFunds(balances, who, amount) && to in s.validators)
  {
  }

  /** Delegating to an account with no validator record always fails and changes
      nothing; once the earlier checks pass, the error is "NotRegistered". */
  lemma DelegateToNonValidator(s: StakingState, balances: map<AccountId, Balance>, who: AccountId, to: AccountId, amount: Balance)
    requires to !in s.validators
    ensures Delegate(s, balances, who, to, amount).result.Err?
    ensures Delegate(s, balances, who, to, amount).post == s
    ensures who !in s.delegators && HasFunds(balances, who, amount) ==>
      Delegate(s, balances, who, to, amount).result == Err("NotRegistered")
  {
  }

  /** A successful `delegate` records `amount` for the caller and raises the target's
      delegated stake by exactly `amount`; its own stake, every other record and the
      active set are unchanged. */
  lemma DelegateEffect(s: StakingState, balances: map<AccountId, Balance>, who: AccountId, to: AccountId, amount: Balance)
    requires Delegate(s, balances, who, to, amount).result == Ok
    ensures var t := Delegate(s, balances, who, to, amount).post;
      && t.delegators.Keys == s.delegators.Keys + {who}
      && t.delegators[who] == amount
      && (forall a :: a in s.delegators ==> t.delegators[a] == s.delegators[a])
      && t.validators.Keys == s.validators.Keys
      && t.validators[to].own == s.validators[to].own
      && t.validators[to].delegated == s.validators[to].delegated + amount
      && (forall a :: a in s.validators && a != to ==> t.validators[a] == s.validators[a])
      && t.activeValidators == s.activeValidators
  {
  }

  /** Delegation is one-shot: after a successful `delegate`, the same caller's next
      `delegate` fails "AlreadyDelegator" whatever its target and amount. */
  lemma DelegateOnce(s: StakingState, balances: map<AccountId, Balance>, who: AccountId, to: AccountId, amount: Balance,
                     to': AccountId, amount': Balance)
    requires Delegate(s, balances, who, to, amount).result == Ok
    ensures var first := Delegate(s, balances, who, to, amount).post;
      Delegate(first, balances, who, to', amount') == Step(Err("AlreadyDelegator"), first)
  {
  }

  lemma DelegateKeepsValid(s: StakingState, balances: map<AccountId, Balance>, who: AccountId, to: AccountId, amount: Balance)
    requires Valid(s)
    ensures Valid(Delegate(s, balances, who, to, amount).post)
  {
    var step := Delegate(s, balances, who, to, amount);
    if step.result == Ok {
      var t := step.post;
      var stake := s.validators[to];
      assert DelegatedStakes(t.validators) == DelegatedStakes(s.validators)[to := stake.delegated + amount];
      SumUpdate(DelegatedStakes(s.validators), to, stake.delegated + amount);
      SumUpdate(s.delegators, who, amount);
    }
  }

  // ---------------------------------------------------------------------------
  // the era hook and the selection

  /** Each collected entry is an existing validator with its own record. */
  lemma CollectMembers(validators: map<AccountId, ValidatorStake>, order: seq<AccountId>, e: (AccountId, ValidatorStake))
    requires IsEnumeration(order, validators)
    ensures e in multiset(Collect(validators, order)) <==> e.0 in validators && e.1 == validators[e.0]
  {
    var c := Collect(validators, order);
    if e.0 in validators && e.1 == validators[e.0] {
      assert e.0 in Elements(order);
      var i :| 0 <= i < |order| && order[i] == e.0;
      assert c[i] == e;
    }
  }

  lemma CollectDistinct(validators: map<AccountId, ValidatorStake>, order: seq<AccountId>)
    requires IsEnumeration(order, validators)
    ensures Distinct(Collect(validators, order))
  {
  }

  /** Ranking rearranges the collected validators into non-increasing total stake. */
  lemma RankedPermutes(validators: map<AccountId, ValidatorStake>, order: seq<AccountId>)
    requires IsEnumeration(order, validators)
    ensures multiset(Ranked(validators, order)) == multiset(Collect(validators, order))
    ensures DescendingBy(Ranked(validators, order), TotalStake)
    ensures |Ranked(validators, order)| == |validators|
  {
    var sorted := SortByKey(Collect(validators, order), TotalStake);
    ReversePermutes(sorted);
    ReverseDescends(sorted, TotalStake);
    DistinctCardinality(order);
    assert |validators| == |validators.Keys| == |order|;
  }

  /** Every ranked entry is a validator paired with its own record. */
  lemma RankedMembers(validators: map<AccountId, ValidatorStake>, order: seq<AccountId>, ranked: seq<(AccountId, ValidatorStake)>)
    requires IsEnumeration(order, validators)
    requires multiset(ranked) == multiset(Collect(validators, order))
    ensures forall i :: 0 <= i < |ranked| ==> ranked[i].0 in validators && ranked[i].1 == validators[ranked[i].0]
  {
    forall i | 0 <= i < |ranked|
      ensures ranked[i].0 in validators && ranked[i].1 == validators[ranked[i].0]
    {
      assert ranked[i] in multiset(ranked);
      CollectMembers(validators, order, ranked[i]);
    }
  }

  /** No validator is ranked twice, and none is missing. */
  lemma RankedIdsExact(validators: map<AccountId, ValidatorStake>, order: seq<AccountId>, ranked: seq<(AccountId, ValidatorStake)>)
    requires IsEnumeration(order, validators)
    requires multiset(ranked) == multiset(Collect(validators, order))
    ensures Distinct(Ids(ranked))
    ensures forall x :: x in validators ==> x in Ids(ranked)
  {
    var collected := Collect(validators, order);
    RankedMembers(validators, order, ranked);
    CollectDistinct(validators, order);
    PermutationKeepsDistinct(collected, ranked);
    forall i, j | 0 <= i < j < |ranked| ensures Ids(ranked)[i] != Ids(ranked)[j] {
      assert ranked[i] != ranked[j];
    }
    forall x | x in validators ensures x in Ids(ranked) {
      CollectMembers(validators, order, (x, validators[x]));
      assert (x, validators[x]) in multiset(ranked);
      var p :| 0 <= p < |ranked| && ranked[p] == (x, validators[x]);
      assert Ids(ranked)[p] == x;
    }
  }

  /** The ranked list holds every validator exactly once, with its record, in
      non-increasing order of total stake. */
  lemma RankedFacts(validators: map<AccountId, ValidatorStake>, order: seq<AccountId>)
    requires IsEnumeration(order, validators)
    ensures var ranked := Ranked(validators, order);
      && |ranked| == |validators|
      && DescendingBy(ranked, TotalStake)
      && Distinct(Ids(ranked))
      && (forall i :: 0 <= i < |ranked| ==> ranked[i].0 in validators && ranked[i].1 == validators[ranked[i].0])
      && (forall x :: x in validators ==> x in Ids(ranked))
  {
    var ranked := Ranked(validators, order);
    RankedPermutes(validators, order);
    RankedMembers(validators, order, ranked);
    RankedIdsExact(validators, order, ranked);
  }

  /** The selection is the top `count` validators by total stake: it has
      `min(count, |Validators|)` distinct registered ids in non-increasing order of
      total stake, and no validator left out has more stake than one selected. */
  lemma SelectIsTopK(validators: map<AccountId, ValidatorStake>, order: seq<AccountId>, count: nat)
    requires IsEnumeration(order, validators)
    ensures var sel := Select(validators, order, count);
      && |sel| == Min(count, |validators|)
      && Distinct(sel)
      && (forall i :: 0 <= i < |sel| ==> sel[i] in validators)
      && (forall i, j :: 0 <= i < j < |sel| ==> Total(validators[sel[i]]) >= Total(validators[sel[j]]))
      && (forall x, i :: x in validators && x !in sel && 0 <= i < |sel| ==> Total(validators[x]) <= Total(validators[sel[i]]))
      && (count >= |validators| ==> Elements(sel) == validators.Keys)
  {
    var ranked := Ranked(validators, order);
    RankedFacts(validators, order);
    var sel := Select(validators, order, count);
    SelectPrefix(validators, ranked, count, sel);
  }

  /** The facts about a `count`-prefix of a ranked list that make it a top-k selection. */
  lemma SelectPrefix(validators: map<AccountId, ValidatorStake>, ranked: seq<(AccountId, ValidatorStake)>, count: nat, sel: seq<AccountId>)
    requires |ranked| == |validators|
    requires DescendingBy(ranked, TotalStake)
    requires Distinct(Ids(ranked))
    requires forall i :: 0 <= i < |ranked| ==> ranked[i].0 in validators && ranked[i].1 == validators[ranked[i].0]
    requires forall x :: x in validators ==> x in Ids(ranked)
    requires sel == Ids(ranked[..Min(count, |ranked|)])
    ensures |sel| == Min(count, |validators|)
    ensures Distinct(sel)
    ensures forall i :: 0 <= i < |sel| ==> sel[i] in validators
    ensures forall i, j :: 0 <= i < j < |sel| ==> Total(validators[sel[i]]) >= Total(validators[sel[j]])
    ensures forall x, i :: x in validators && x !in sel && 0 <= i < |sel| ==> Total(validators[x]) <= Total(validators[sel[i]])
    ensures count >= |validators| ==> Elements(sel) == validators.Keys
  {
    var c := Min(count, |ranked|);
    assert forall i :: 0 <= i < |sel| ==> sel[i] == ranked[i].0 == Ids(ranked)[i];
    forall i, j | 0 <= i < j < |sel| ensures Total(validators[sel[i]]) >= Total(validators[sel[j]]) {
      assert TotalStake(ranked[i]) >= TotalStake(ranked[j]);
    }
    forall x, i | x in validators && x !in sel && 0 <= i < |sel|
      ensures Total(validators[x]) <= Total(validators[sel[i]])
    {
      var p :| 0 <= p < |ranked| && Ids(ranked)[p] == x;
      assert forall q :: 0 <= q < c ==> sel[q] != x;
      assert c <= p;
      assert TotalStake(ranked[i]) >= TotalStake(ranked[p]);
    }
    if count >= |validators| {
      assert sel == Ids(ranked) by {
        assert ranked[..|ranked|] == ranked;
      }
    }
  }

  /** Ties in total stake come out in reverse enumeration order: the stable ascending
      sort keeps each group of equal totals in the order `order` gave them, and the
      full reversal then inverts every such group. */
  lemma RankedTies(validators: map<AccountId, ValidatorStake>, order: seq<AccountId>, k: nat)
    requires IsEnumeration(order, validators)
    ensures WithKey(Ranked(validators, order), TotalStake, k) == Reverse(WithKey(Collect(validators, order), TotalStake, k))
  {
    var collected := Collect(validators, order);
    ReverseFlipsTies(SortByKey(collected, TotalStake), TotalStake, k);
    SortIsStable(collected, TotalStake, k);
  }

  /** When no two validators have the same total stake, the selection does not depend
      on the order in which the storage map is iterated. */
  lemma SelectIgnoresOrderWithoutTies(validators: map<AccountId, ValidatorStake>, o1: seq<AccountId>, o2: seq<AccountId>, count: nat)
    requires IsEnumeration(o1, validators) && IsEnumeration(o2, validators)
    requires forall a, b :: a in validators && b in validators && a != b ==> Total(validators[a]) != Total(validators[b])
    ensures Select(validators, o1, count) == Select(validators, o2, count)
  {
    var c1, c2 := Collect(validators, o1), Collect(validators, o2);
    var s1, s2 := SortByKey(c1, TotalStake), SortByKey(c2, TotalStake);
    CollectDistinct(validators, o1);
    CollectDistinct(validators, o2);
    forall e ensures multiset(c1)[e] == multiset(c2)[e] {
      CollectMembers(validators, o1, e);
      CollectMembers(validators, o2, e);
      DistinctMultiplicity(c1, e);
      DistinctMultiplicity(c2, e);
    }
    assert multiset(c1) == multiset(c2);
    forall i, j | 0 <= i < j < |s1| ensures TotalStake(s1[i]) != TotalStake(s1[j]) {
      assert s1[i] in multiset(c1) && s1[j] in multiset(c1);
      CollectMembers(validators, o1, s1[i]);
      CollectMembers(validators, o1, s1[j]);
      PermutationKeepsDistinct(c1, s1);
    }
    SortedWithoutTiesIsUnique(s1, s2, TotalStake);
  }

  /** On an era boundary the hook installs the top-`ValidatorCount` selection; running
      it again on the same block and storage changes nothing further. */
  lemma OnInitializeSelects(s: StakingState, now: nat, config: Config, order: seq<AccountId>)
    requires config.eraDuration > 0
    requires IsEnumeration(order, s.validators)
    ensures var t := OnInitialize(s, now, config, order);
      && (IsEraBoundary(now, config.eraDuration) ==>
            t.activeValidators == Select(s.validators, order, config.validatorCount)
            && |t.activeValidators| == Min(config.validatorCount, |s.validators|))
      && OnInitialize(t, now, config, order) == t
  {
    SelectIsTopK(s.validators, order, config.validatorCount);
  }

  lemma OnInitializeKeepsValid(s: StakingState, now: nat, config: Config, order: seq<AccountId>)
    requires config.eraDuration > 0
    requires IsEnumeration(order, s.validators)
    requires Valid(s)
    ensures Valid(OnInitialize(s, now, config, order))
  {
    SelectIsTopK(s.validators, order, config.validatorCount);
  }

  // ---------------------------------------------------------------------------
  // genesis

  /** Genesis keeps the staking invariant, and never touches the active set. */
  lemma {:induction false} RegisterAllKeepsValid(s: StakingState, balances: map<AccountId, Balance>, validators: seq<(AccountId, Balance)>)
    requires Valid(s)
    requires RegisterAll(s, balances, validators).Built?
    ensures Valid(RegisterAll(s, balances, validators).state)
    ensures RegisterAll(s, balances, validators).state.activeValidators == s.activeValidators
    decreases |validators|
  {
    if validators != [] {
      var step := Register(s, balances, validators[0].0, validators[0].1);
      RegisterKeepsValid(s, balances, validators[0].0, validators[0].1);
      RegisterAllKeepsValid(step.post, balances, validators[1..]);
    }
  }

  lemma {:induction false} DelegateAllKeepsValid(s: StakingState, balances: map<AccountId, Balance>, delegators: seq<(AccountId, AccountId, Balance)>)
    requires Valid(s)
    requires DelegateAll(s, balances, delegators).Built?
    ensures Valid(DelegateAll(s, balances, delegators).state)
    ensures DelegateAll(s, balances, delegators).state.activeValidators == s.activeValidators
    decreases |delegators|
  {
    if delegators != [] {
      var (who, to, amount) := delegators[0];
      DelegateKeepsValid(s, balances, who, to, amount);
      DelegateAllKeepsValid(Delegate(s, balances, who, to, amount).post, balances, delegators[1..]);
    }
  }

  /** The delegating accounts of a genesis list, in list order. */
  function DelegatorIds(delegators: seq<(AccountId, AccountId, Balance)>): (r: seq<AccountId>)
    ensures |r| == |delegators|
    ensures forall i :: 0 <= i < |delegators| ==> r[i] == delegators[i].0
  {
    if delegators == [] then [] else [delegators[0].0] + DelegatorIds(delegators[1..])
  }

  /** The total a genesis list stakes on validator `v`. */
  function StakedOn(delegators: seq<(AccountId, AccountId, Balance)>, v: AccountId): nat {
    if delegators == [] then 0
    else (if delegators[0].1 == v then delegators[0].2 else 0) + StakedOn(delegators[1..], v)
  }

  /** Every listed delegator is not yet a delegator in `s`, is funded for its stake,
      and names a registered validator. */
  predicate AllDelegatable(s: StakingState, balances: map<AccountId, Balance>, delegators: seq<(AccountId, AccountId, Balance)>) {
    forall i :: 0 <= i < |delegators| ==>
      && delegators[i].0 !in s.delegators
      && HasFunds(balances, delegators[i].0, delegators[i].2)
      && delegators[i].1 in s.validators
  }

  /** The delegation phase of genesis completes exactly when the listed delegators are
      pairwise distinct, none is a delegator already, each is funded for its stake and
      each names a registered validator; otherwise genesis aborts. */
  lemma {:induction false} DelegateAllCompletes(s: StakingState, balances: map<AccountId, Balance>, delegators: seq<(AccountId, AccountId, Balance)>)
    ensures DelegateAll(s, balances, delegators).Built? <==> Distinct(DelegatorIds(delegators)) && AllDelegatable(s, balances, delegators)
    decreases |delegators|
  {
    if delegators != [] {
      var (who, to, amount) := delegators[0];
      var rest := delegators[1..];
      AllDelegatableCons(s, balances, delegators);
      assert DelegatorIds(delegators)[1..] == DelegatorIds(rest);
      DistinctCons(DelegatorIds(delegators));
      var step := Delegate(s, balances, who, to, amount);
      if step.result == Ok {
        AllDelegatableAfter(s, balances, who, to, amount, rest);
        DelegateAllCompletes(step.post, balances, rest);
      }
    }
  }

  /** The first entry's checks, and the rest of the list, split `AllDelegatable`. */
  lemma AllDelegatableCons(s: StakingState, balances: map<AccountId, Balance>, delegators: seq<(AccountId, AccountId, Balance)>)
    requires delegators != []
    ensures AllDelegatable(s, balances, delegators) <==>
      && delegators[0].0 !in s.delegators
      && HasFunds(balances, delegators[0].0, delegators[0].2)
      && delegators[0].1 in s.validators
      && AllDelegatable(s, balances, delegators[1..])
  {
    var rest := delegators[1..];
    assert forall i :: 0 < i < |delegators| ==> delegators[i] == rest[i - 1];
  }

  /** After one successful `delegate` by `who`, the rest of a list is delegatable exactly
      when it was before and does not list `who` again. */
  lemma AllDelegatableAfter(s: StakingState, balances: map<AccountId, Balance>, who: AccountId, to: AccountId, amount: Balance,
                            rest: seq<(AccountId, AccountId, Balance)>)
    requires Delegate(s, balances, who, to, amount).result == Ok
    ensures AllDelegatable(Delegate(s, balances, who, to, amount).post, balances, rest) <==>
      AllDelegatable(s, balances, rest) && who !in DelegatorIds(rest)
  {
    var next := Delegate(s, balances, who, to, amount).post;
    assert next.delegators.Keys == s.delegators.Keys + {who};
    assert next.validators.Keys == s.validators.Keys;
    var ids := DelegatorIds(rest);
    if who in ids {
      var k :| 0 <= k < |ids| && ids[k] == who;
      assert rest[k].0 in next.delegators;
    }
  }

  /** The delegation phase of genesis records each listed delegator with its listed
      stake and keeps existing records; it registers no validator, changes no `own`
      stake, and raises each validator's delegated stake by the total listed for it. */
  lemma {:induction false} DelegateAllContents(s: StakingState, balances: map<AccountId, Balance>, delegators: seq<(AccountId, AccountId, Balance)>)
    requires DelegateAll(s, balances, delegators).Built?
    ensures var t := DelegateAll(s, balances, delegators).state;
      && t.delegators.Keys == s.delegators.Keys + Elements(DelegatorIds(delegators))
      && (forall i :: 0 <= i < |delegators| ==> t.delegators[delegators[i].0] == delegators[i].2)
      && (forall a :: a in s.delegators ==> t.delegators[a] == s.delegators[a])
      && t.validators.Keys == s.validators.Keys
      && (forall v :: v in s.validators ==> t.validators[v].own == s.validators[v].own)
      && (forall v :: v in s.validators ==> t.validators[v].delegated == s.validators[v].delegated + StakedOn(delegators, v))
      && t.activeValidators == s.activeValidators
    decreases |delegators|
  {
    if delegators != [] {
      var (who, to, amount) := delegators[0];
      var rest := delegators[1..];
      var next := Delegate(s, balances, who, to, amount).post;
      DelegateAllContents(next, balances, rest);
      assert DelegatorIds(delegators) == [who] + DelegatorIds(rest);
      assert Elements(DelegatorIds(delegators)) == {who} + Elements(DelegatorIds(rest));
      assert forall i :: 0 < i < |delegators| ==> delegators[i] == rest[i - 1];
      forall v | v in s.validators
        ensures StakedOn(delegators, v) == (if v == to then amount else 0) + StakedOn(rest, v)
      {
      }
    }
  }

  /** A completed genesis from empty storage yields a valid state whose active set is
      still empty: validators are only selected by the era hook. */
  lemma GenesisIsValid(balances: map<AccountId, Balance>, validators: seq<(AccountId, Balance)>,
                       delegators: seq<(AccountId, AccountId, Balance)>)
    requires BuildGenesis(Empty, balances, validators, delegators).Built?
    ensures Valid(BuildGenesis(Empty, balances, validators, delegators).state)
    ensures BuildGenesis(Empty, balances, validators, delegators).state.activeValidators == []
  {
    EmptyIsValid();
    RegisterAllKeepsValid(Empty, balances, validators);
    DelegateAllKeepsValid(RegisterAll(Empty, balances, validators).state, balances, delegators);
  }

  /** Every listed validator is unregistered in `s` and funded for its stake. */
  predicate AllRegistrable(s: StakingState, balances: map<AccountId, Balance>, validators: seq<(AccountId, Balance)>) {
    forall i :: 0 <= i < |validators| ==> validators[i].0 !in s.validators && HasFunds(balances, validators[i].0, validators[i].1)
  }

  /** The registration phase of genesis completes exactly when the listed validators
      are pairwise distinct, none is registered already and each has the funds for
      its stake; otherwise genesis aborts. */
  lemma {:induction false} RegisterAllCompletes(s: StakingState, balances: map<AccountId, Balance>, validators: seq<(AccountId, Balance)>)
    ensures RegisterAll(s, balances, validators).Built? <==> Distinct(Ids(validators)) && AllRegistrable(s, balances, validators)
    decreases |validators|
  {
    if validators != [] {
      var (who, amount) := validators[0];
      var rest := validators[1..];
      var step := Register(s, balances, who, amount);
      assert forall i :: 0 < i < |validators| ==> validators[i] == rest[i - 1];
      if step.result == Ok {
        var next := step.post;
        assert next.validators == s.validators[who := ValidatorStake(amount, 0)];
        RegisterAllCompletes(next, balances, rest);
        if Distinct(Ids(validators)) && AllRegistrable(s, balances, validators) {
          assert forall i :: 0 <= i < |rest| ==> rest[i].0 != who by {
            forall i | 0 <= i < |rest| ensures rest[i].0 != who {
              assert Ids(validators)[i + 1] == rest[i].0;
            }
          }
          assert Distinct(Ids(rest)) by {
            forall i, j | 0 <= i < j < |rest| ensures Ids(rest)[i] != Ids(rest)[j] {
              assert Ids(validators)[i + 1] == Ids(rest)[i];
              assert Ids(validators)[j + 1] == Ids(rest)[j];
            }
          }
        }
        if RegisterAll(next, balances, rest).Built? {
          assert AllRegistrable(next, balances, rest);
          assert Distinct(Ids(validators)) by {
            forall i, j | 0 <= i < j < |validators| ensures Ids(validators)[i] != Ids(validators)[j] {
              if i > 0 {
                assert Ids(rest)[i - 1] == Ids(validators)[i];
              }
              assert Ids(rest)[j - 1] == Ids(validators)[j];
            }
          }
        }
      }
    }
  }

  /** The registration phase of genesis gives every listed validator the record
      `{own: stake, delegated: 0}` and registers no one else. */
  lemma {:induction false} RegisterAllContents(s: StakingState, balances: map<AccountId, Balance>, validators: seq<(AccountId, Balance)>)
    requires RegisterAll(s, balances, validators).Built?
    ensures var t := RegisterAll(s, balances, validators).state;
      && t.validators.Keys == s.validators.Keys + Elements(Ids(validators))
      && (forall i :: 0 <= i < |validators| ==> t.validators[validators[i].0] == ValidatorStake(validators[i].1, 0))
      && (forall a :: a in s.validators ==> t.validators[a] == s.validators[a])
      && t.delegators == s.delegators
    decreases |validators|
  {
    if validators != [] {
      var rest := validators[1..];
      var step := Register(s, balances, validators[0].0, validators[0].1);
      RegisterAllContents(step.post, balances, rest);
      assert Ids(validators) == [validators[0].0] + Ids(rest);
      assert Elements(Ids(validators)) == {validators[0].0} + Elements(Ids(rest));
      assert forall i :: 0 < i < |validators| ==> validators[i] == rest[i - 1];
    }
  }
}
