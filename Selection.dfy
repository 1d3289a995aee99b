/** The sequence operations the era hook applies to the collected validators:
    `sort_by_key` (a stable sort, ascending by key) and `reverse`, together with
    what they promise: sortedness, permutation, and the relative order of
    elements with equal keys. */
module Selection {

  /** Keys never decrease along `s`. */
  ghost predicate SortedBy<T>(s: seq<T>, key: T -> nat) {
    forall i, j :: 0 <= i < j < |s| ==> key(s[i]) <= key(s[j])
  }

  /** Keys never increase along `s`. */
  ghost predicate DescendingBy<T>(s: seq<T>, key: T -> nat) {
    forall i, j :: 0 <= i < j < |s| ==> key(s[i]) >= key(s[j])
  }

  /** Places `x` in front of the first element whose key is not smaller than its own. */
  function Insert<T>(x: T, t: seq<T>, key: T -> nat): (r: seq<T>)
    ensures multiset(r) == multiset(t) + multiset{x}
  {
    if t == [] then [x]
    else if key(x) <= key(t[0]) then [x] + t
    else
      assert t == [t[0]] + t[1..];
      [t[0]] + Insert(x, t[1..], key)
  }

  lemma {:induction false} InsertSorted<T>(x: T, t: seq<T>, key: T -> nat)
    requires SortedBy(t, key)
    ensures SortedBy(Insert(x, t, key), key)
  {
    if t != [] && key(x) > key(t[0]) {
      var rest := Insert(x, t[1..], key);
      InsertSorted(x, t[1..], key);
      assert t == [t[0]] + t[1..];
      forall i | 0 <= i < |rest| ensures key(t[0]) <= key(rest[i]) {
        assert rest[i] in multiset(rest);
        if rest[i] != x {
          assert rest[i] in multiset(t[1..]);
          var j :| 0 <= j < |t[1..]| && t[1..][j] == rest[i];
          assert t[j + 1] == rest[i];
        }
      }
      var r := [t[0]] + rest;
      forall i, j | 0 <= i < j < |r| ensures key(r[i]) <= key(r[j]) {
        assert r[j] == rest[j - 1];
        if i > 0 {
          assert r[i] == rest[i - 1];
        }
      }
    }
  }

  /** A stable insertion sort, ascending by `key`: the model of `sort_by_key`. */
  function SortByKey<T>(s: seq<T>, key: T -> nat): (r: seq<T>)
    ensures SortedBy(r, key)
    ensures multiset(r) == multiset(s)
  {
    if s == [] then []
    else
      var sorted := SortByKey(s[1..], key);
      assert s == [s[0]] + s[1..];
      InsertSorted(s[0], sorted, key);
      Insert(s[0], sorted, key)
  }

  /** The model of `reverse`. */
  function Reverse<T>(s: seq<T>): (r: seq<T>)
    ensures |r| == |s|
    ensures forall i :: 0 <= i < |s| ==> r[i] == s[|s| - 1 - i]
  {
    if s == [] then [] else Reverse(s[1..]) + [s[0]]
  }

  lemma ReversePermutes<T>(s: seq<T>)
    ensures multiset(Reverse(s)) == multiset(s)
  {
    if s != [] {
      ReversePermutes(s[1..]);
      assert s == [s[0]] + s[1..];
    }
  }

  /** Reversing an ascending sequence gives a descending one. */
  lemma ReverseDescends<T>(s: seq<T>, key: T -> nat)
    requires SortedBy(s, key)
    ensures DescendingBy(Reverse(s), key)
  {
    var r := Reverse(s);
    forall i, j | 0 <= i < j < |r| ensures key(r[i]) >= key(r[j]) {
      assert r[i] == s[|s| - 1 - i] && r[j] == s[|s| - 1 - j];
    }
  }

  /** The elements of `s` whose key is `k`, in their order in `s`. */
  function WithKey<T>(s: seq<T>, key: T -> nat, k: nat): seq<T> {
    if s == [] then []
    else if key(s[0]) == k then [s[0]] + WithKey(s[1..], key, k)
    else WithKey(s[1..], key, k)
  }

  lemma {:induction false} WithKeyConcat<T>(a: seq<T>, b: seq<T>, key: T -> nat, k: nat)
    ensures WithKey(a + b, key, k) == WithKey(a, key, k) + WithKey(b, key, k)
  {
    if a != [] {
      assert (a + b)[1..] == a[1..] + b;
      WithKeyConcat(a[1..], b, key, k);
    } else {
      assert a + b == b;
    }
  }

  /** Inserting `x` puts it in front of every element with the same key. */
  lemma {:induction false} InsertKeepsTies<T>(x: T, t: seq<T>, key: T -> nat, k: nat)
    ensures WithKey(Insert(x, t, key), key, k) == (if key(x) == k then [x] + WithKey(t, key, k) else WithKey(t, key, k))
  {
    if t == [] {
    } else if key(x) <= key(t[0]) {
      assert ([x] + t)[1..] == t;
    } else {
      var rest := Insert(x, t[1..], key);
      var r := [t[0]] + rest;
      assert r[0] == t[0] && r[1..] == rest;
      InsertKeepsTies(x, t[1..], key, k);
      if key(t[0]) == k {
        assert WithKey(r, key, k) == [t[0]] + WithKey(rest, key, k);
      } else {
        assert WithKey(r, key, k) == WithKey(rest, key, k);
      }
    }
  }

  /** The sort is stable: for every key, the elements carrying it keep their order. */
  lemma {:induction false} SortIsStable<T>(s: seq<T>, key: T -> nat, k: nat)
    ensures WithKey(SortByKey(s, key), key, k) == WithKey(s, key, k)
  {
    if s != [] {
      SortIsStable(s[1..], key, k);
      InsertKeepsTies(s[0], SortByKey(s[1..], key), key, k);
    }
  }

  /** Reversing reverses the order within every group of equal keys. */
  lemma {:induction false} ReverseFlipsTies<T>(s: seq<T>, key: T -> nat, k: nat)
    ensures WithKey(Reverse(s), key, k) == Reverse(WithKey(s, key, k))
  {
    if s != [] {
      ReverseFlipsTies(s[1..], key, k);
      WithKeyConcat(Reverse(s[1..]), [s[0]], key, k);
      var head := if key(s[0]) == k then [s[0]] else [];
      assert WithKey([s[0]], key, k) == head;
      var tail := WithKey(s[1..], key, k);
      assert WithKey(s, key, k) == head + tail;
      assert Reverse(head + tail) == Reverse(tail) + head by {
        var u := head + tail;
        assert |Reverse(u)| == |Reverse(tail) + head|;
        forall i | 0 <= i < |u| ensures Reverse(u)[i] == (Reverse(tail) + head)[i] {
          if i < |tail| {
            assert Reverse(u)[i] == u[|u| - 1 - i] == tail[|tail| - 1 - i];
          }
        }
      }
    }
  }

  /** Of two key-sorted sequences with the same elements and no tied keys, the first
      elements agree. */
  lemma SortedHeadsAgree<T>(a: seq<T>, b: seq<T>, key: T -> nat)
    requires a != []
    requires SortedBy(a, key) && SortedBy(b, key)
    requires multiset(a) == multiset(b)
    requires forall i, j :: 0 <= i < j < |a| ==> key(a[i]) != key(a[j])
    ensures b != [] && a[0] == b[0]
  {
    assert a[0] in multiset(b);
    var j :| 0 <= j < |b| && b[j] == a[0];
    assert b[0] in multiset(a);
    var i :| 0 <= i < |a| && a[i] == b[0];
    assert key(a[0]) <= key(a[i]) == key(b[0]) <= key(b[j]) == key(a[0]);
  }

  /** A key-sorted sequence in which no two elements share a key is determined by its
      multiset: with no ties, the enumeration order that fed the sort cannot matter. */
  lemma {:induction false} SortedWithoutTiesIsUnique<T>(a: seq<T>, b: seq<T>, key: T -> nat)
    requires SortedBy(a, key) && SortedBy(b, key)
    requires multiset(a) == multiset(b)
    requires forall i, j :: 0 <= i < j < |a| ==> key(a[i]) != key(a[j])
    ensures a == b
    decreases |a|
  {
    if a == [] {
      assert |b| == |multiset(b)| == 0;
    } else {
      SortedHeadsAgree(a, b, key);
      var a', b' := a[1..], b[1..];
      assert a == [a[0]] + a' && b == [b[0]] + b';
      assert multiset(a') == multiset(b') by {
        assert multiset(a) == multiset{a[0]} + multiset(a');
        assert multiset(b) == multiset{b[0]} + multiset(b');
        forall x ensures multiset(a')[x] == multiset(b')[x] {
          assert multiset(a)[x] == multiset{a[0]}[x] + multiset(a')[x];
          assert multiset(b)[x] == multiset{b[0]}[x] + multiset(b')[x];
        }
      }
      assert forall i, j :: 0 <= i < j < |a'| ==> key(a'[i]) != key(a'[j]) by {
        forall i, j | 0 <= i < j < |a'| ensures key(a'[i]) != key(a'[j]) {
          assert a'[i] == a[i + 1] && a'[j] == a[j + 1];
        }
      }
      SortedWithoutTiesIsUnique(a', b', key);
    }
  }
}
