/** Shared vocabulary of the two pallets: identifiers, balances, dispatch results,
    genesis outcomes, and the sum of a map's values used by the issuance and
    delegation invariants. */
module Support {

  /** Account identifiers are opaque keys; the test runtimes use small integers. */
  type AccountId = nat

  /** `u128` in the source; overflow is not modelled, so balances are unbounded. */
  type Balance = nat

  datatype Option<T> = None | Some(value: T)

  /** The result of a dispatchable call: the source reports every error as a string. */
  datatype DispatchResult = Ok | Err(message: string)

  /** A call's result together with the storage it leaves behind. */
  datatype Step<S> = Step(result: DispatchResult, post: S)

  /** The outcome of a genesis build: a failed assertion is a panic, not a result. */
  datatype Genesis<S> = Built(state: S) | Panicked(message: string)

  /** No identifier repeats in `s`. */
  predicate Distinct<T(==)>(s: seq<T>) {
    forall i, j :: 0 <= i < j < |s| ==> s[i] != s[j]
  }

  /** The set of elements of `s`. */
  function Elements<T>(s: seq<T>): set<T> {
    set x | x in s
  }

  /** A non-empty sequence is duplicate-free exactly when its head does not recur and
      its tail is duplicate-free. */
  lemma DistinctCons<T>(s: seq<T>)
    requires s != []
    ensures Distinct(s) <==> s[0] !in s[1..] && Distinct(s[1..])
  {
    if s[0] !in s[1..] && Distinct(s[1..]) {
      forall i, j | 0 <= i < j < |s| ensures s[i] != s[j] {
        assert s[j] == s[1..][j - 1];
        if i > 0 {
          assert s[i] == s[1..][i - 1];
        }
      }
    }
    if Distinct(s) {
      forall i, j | 0 <= i < j < |s[1..]| ensures s[1..][i] != s[1..][j] {
        assert s[1..][i] == s[i + 1] && s[1..][j] == s[j + 1];
      }
      forall k | 0 <= k < |s[1..]| ensures s[1..][k] != s[0] {
        assert s[1..][k] == s[k + 1];
      }
    }
  }

  lemma {:induction false} DistinctCardinality<T>(s: seq<T>)
    requires Distinct(s)
    ensures |Elements(s)| == |s|
  {
    if s != [] {
      DistinctCardinality(s[1..]);
      assert Elements(s) == Elements(s[1..]) + {s[0]};
      assert s[0] !in Elements(s[1..]);
    }
  }

  /** A duplicate-free sequence holds each of its elements exactly once. */
  lemma {:induction false} DistinctMultiplicity<T>(s: seq<T>, x: T)
    requires Distinct(s)
    ensures multiset(s)[x] == if x in s then 1 else 0
  {
    if s != [] {
      assert s == [s[0]] + s[1..];
      DistinctMultiplicity(s[1..], x);
    }
  }

  /** Some key of a non-empty map (which one is left unspecified). */
  ghost function AnyKey<K>(m: map<K, nat>): (k: K)
    requires m != map[]
    ensures k in m
  {
    var k :| k in m; k
  }

  /** An element that occurs twice is counted at least twice. */
  lemma DuplicateMultiplicity<T>(s: seq<T>, i: nat, j: nat)
    requires i < j < |s| && s[i] == s[j]
    ensures multiset(s)[s[i]] >= 2
  {
    assert s == s[..j] + s[j..];
    assert s[..j][i] == s[i];
    assert s[j..][0] == s[i];
    assert multiset(s) == multiset(s[..j]) + multiset(s[j..]);
  }

  /** Rearranging a duplicate-free sequence cannot create a duplicate. */
  lemma PermutationKeepsDistinct<T>(x: seq<T>, y: seq<T>)
    requires Distinct(x) && multiset(x) == multiset(y)
    ensures Distinct(y)
  {
    forall i, j | 0 <= i < j < |y| ensures y[i] != y[j] {
      if y[i] == y[j] {
        DuplicateMultiplicity(y, i, j);
        DistinctMultiplicity(x, y[i]);
        assert false;
      }
    }
  }

  /** The identifiers of a list of `(id, value)` pairs, in order. */
  function Ids<V>(entries: seq<(AccountId, V)>): (r: seq<AccountId>)
    ensures |r| == |entries|
    ensures forall i :: 0 <= i < |entries| ==> r[i] == entries[i].0
  {
    seq(|entries|, i requires 0 <= i < |entries| => entries[i].0)
  }

  function Min(a: nat, b: nat): nat {
    if a <= b then a else b
  }

  /** The sum of all values of a finite map. */
  ghost function SumOf<K>(m: map<K, nat>): nat
    decreases |m|
  {
    if m == map[] then 0
    else
      var k := AnyKey(m);
      m[k] + SumOf(m - {k})
  }

  /** Any key can be taken out first: the sum does not depend on the order of keys. */
  lemma {:induction false} SumRemove<K>(m: map<K, nat>, k: K)
    requires k in m
    ensures SumOf(m) == m[k] + SumOf(m - {k})
    decreases |m|
  {
    var j := AnyKey(m);
    if j != k {
      var mj, mk := m - {j}, m - {k};
      SumRemove(mj, k);
      SumRemove(mk, j);
      assert mj - {k} == mk - {j};
    }
  }

  /** Overwriting (or adding) one key changes the sum by exactly the difference. */
  lemma SumUpdate<K>(m: map<K, nat>, k: K, v: nat)
    ensures SumOf(m[k := v]) == SumOf(m) - (if k in m then m[k] else 0) + v
  {
    var m' := m[k := v];
    SumRemove(m', k);
    assert m' - {k} == m - {k};
    if k in m {
      SumRemove(m, k);
    } else {
      assert m - {k} == m;
    }
  }
}
