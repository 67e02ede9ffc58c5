/**
 PHP arrays as the alias engine uses them: ordered maps whose keys are integers
 or strings. An array is the sequence of its entries in insertion order; every
 array PHP builds has distinct keys (`WellFormed`).
 */
module PhpArrays {
  import opened Options

  /** A PHP array key. */
  datatype Key = IntKey(i: int) | StrKey(s: string)

  /** A PHP array: its entries in iteration order. */
  type Arr<V> = seq<(Key, V)>

  /** `$a[$k]`, or None when the key is absent (`array_key_exists` is false). */
  function Lookup<V>(a: Arr<V>, k: Key): Option<V>
  {
    if |a| == 0 then None
    else if a[0].0 == k then Some(a[0].1)
    else Lookup(a[1..], k)
  }

  /** `array_key_exists($k, $a)` */
  predicate HasKey<V>(a: Arr<V>, k: Key)
  {
    Lookup(a, k).Some?
  }

  /** No key occurs twice. */
  predicate WellFormed<V>(a: Arr<V>)
  {
    |a| == 0 || (!HasKey(a[1..], a[0].0) && WellFormed(a[1..]))
  }

  /** `array_keys($a)` */
  function KeysOf<V>(a: Arr<V>): (ks: seq<Key>)
    ensures |ks| == |a|
    ensures forall i :: 0 <= i < |a| ==> ks[i] == a[i].0
  {
    if |a| == 0 then [] else [a[0].0] + KeysOf(a[1..])
  }

  /** A key is present exactly when some entry carries it, and then the
      lookup yields that entry's value (the first one, the only one when
      the array is well formed). */
  lemma {:induction false} LookupFindsEntry<V>(a: Arr<V>, k: Key)
    ensures HasKey(a, k) <==> k in KeysOf(a)
    ensures HasKey(a, k) ==> (a[0].0 == k && Lookup(a, k) == Some(a[0].1)) || (|a| > 0 && Lookup(a, k) == Lookup(a[1..], k))
  {
    if |a| > 0 {
      LookupFindsEntry(a[1..], k);
      assert KeysOf(a) == [a[0].0] + KeysOf(a[1..]);
    }
  }

  /** An array holding every key of `ks` has at least `|ks|` entries. */
  lemma {:induction false} KeysBound<V>(a: Arr<V>, ks: set<Key>)
    requires forall k :: k in ks ==> HasKey(a, k)
    ensures |ks| <= |a|
  {
    if |a| == 0 {
      assert ks == {};
    } else {
      var rest := ks - {a[0].0};
      forall k | k in rest
        ensures HasKey(a[1..], k)
      {
        assert HasKey(a, k);
      }
      KeysBound(a[1..], rest);
    }
  }

  /** Two arrays with the same keys in the same order and the same value at
      every position are the same array. */
  lemma SameKeysAndValues<V>(r: Arr<V>, a: Arr<V>)
    requires KeysOf(r) == KeysOf(a)
    requires forall i :: 0 <= i < |a| ==> r[i].1 == a[i].1
    ensures r == a
  {
    assert |r| == |KeysOf(r)|;
    forall i | 0 <= i < |a|
      ensures r[i] == a[i]
    {
      assert KeysOf(r)[i] == KeysOf(a)[i];
    }
  }

  /** In a well-formed array, the entry at position `i` is what its key looks up. */
  lemma {:induction false} LookupAt<V>(a: Arr<V>, i: nat)
    requires WellFormed(a)
    requires i < |a|
    ensures Lookup(a, a[i].0) == Some(a[i].1)
  {
    if i > 0 {
      LookupAt(a[1..], i - 1);
      assert a[1..][i - 1] == a[i];
    }
  }

  /** `$a[$k] = $v`: an existing key keeps its position and takes the new
      value; a new key is appended at the end. */
  function Put<V>(a: Arr<V>, k: Key, v: V): (r: Arr<V>)
    ensures Lookup(r, k) == Some(v)
    ensures forall j {:trigger Lookup(r, j)} :: j != k ==> Lookup(r, j) == Lookup(a, j)
    ensures WellFormed(a) ==> WellFormed(r)
  {
    if |a| == 0 then [(k, v)]
    else if a[0].0 == k then [(k, v)] + a[1..]
    else
      var rest := Put(a[1..], k, v);
      assert ([a[0]] + rest)[1..] == rest;
      [a[0]] + rest
  }

  /** Assigning to a key that is absent appends the entry at the end. */
  lemma {:induction false} PutAppends<V>(a: Arr<V>, k: Key, v: V)
    requires !HasKey(a, k)
    ensures Put(a, k, v) == a + [(k, v)]
  {
    if |a| > 0 {
      PutAppends(a[1..], k, v);
      assert [a[0]] + (a[1..] + [(k, v)]) == a + [(k, v)];
    }
  }

  /** Assigning to a key that is present changes no key and no position. */
  lemma {:induction false} PutKeepsKeys<V>(a: Arr<V>, k: Key, v: V)
    requires HasKey(a, k)
    ensures KeysOf(Put(a, k, v)) == KeysOf(a)
  {
    if a[0].0 != k {
      PutKeepsKeys(a[1..], k, v);
      var r := Put(a, k, v);
      assert r[1..] == Put(a[1..], k, v);
      assert KeysOf(r) == [r[0].0] + KeysOf(r[1..]);
    }
  }

  /** The largest integer key, if there is one. */
  function MaxIntKey<V>(a: Arr<V>): (m: Option<int>)
    ensures forall i :: HasKey(a, IntKey(i)) ==> m.Some? && i <= m.value
    ensures m.Some? ==> HasKey(a, IntKey(m.value))
  {
    if |a| == 0 then None
    else
      var m := MaxIntKey(a[1..]);
      match a[0].0
      case StrKey(_) => m
      case IntKey(i) => if m.Some? && i < m.value then m else Some(i)
  }

  /** The key `$a[] = $v` uses: one past the largest integer key, or 0 when
      there is none (PHP 8.3 and later; arrays here only ever grow). */
  function NextIndex<V>(a: Arr<V>): (n: int)
    ensures !HasKey(a, IntKey(n))
  {
    match MaxIntKey(a)
    case None => 0
    case Some(m) => m + 1
  }

  /** One assignment of `mapKeyValue`: an explicit key stores under that key,
      a null key appends under the next integer index. */
  function Store<V>(a: Arr<V>, item: (Option<Key>, V)): Arr<V>
  {
    match item.0
    case Some(k) => Put(a, k, item.1)
    case None => Put(a, IntKey(NextIndex(a)), item.1)
  }

  /** The assignments `items` performed in order on `a`. */
  function StoreAll<V>(a: Arr<V>, items: seq<(Option<Key>, V)>): (r: Arr<V>)
    ensures WellFormed(a) ==> WellFormed(r)
    decreases |items|
  {
    if |items| == 0 then a
    else Store(StoreAll(a, items[..|items| - 1]), items[|items| - 1])
  }

  /** Storing two batches is storing the first, then the second. */
  lemma {:induction false} StoreAllSplit<V>(a: Arr<V>, xs: seq<(Option<Key>, V)>, ys: seq<(Option<Key>, V)>)
    ensures StoreAll(a, xs + ys) == StoreAll(StoreAll(a, xs), ys)
    decreases |ys|
  {
    if |ys| == 0 {
      assert xs + ys == xs;
    } else {
      var n := |ys| - 1;
      assert (xs + ys)[..|xs + ys| - 1] == xs + ys[..n];
      assert (xs + ys)[|xs + ys| - 1] == ys[n];
      StoreAllSplit(a, xs, ys[..n]);
    }
  }

  /** The last assignment to a key decides its value: later assignments to
      other keys, and later appends, never disturb it. */
  lemma {:induction false} StoreAllLastWins<V>(a: Arr<V>, items: seq<(Option<Key>, V)>, i: nat, k: Key)
    requires i < |items|
    requires items[i].0 == Some(k)
    requires forall j :: i < j < |items| ==> items[j].0 != Some(k)
    ensures Lookup(StoreAll(a, items), k) == Some(items[i].1)
    decreases |items|
  {
    var n := |items| - 1;
    var prev := StoreAll(a, items[..n]);
    assert StoreAll(a, items) == Store(prev, items[n]);
    if i < n {
      assert items[..n][i] == items[i];
      assert forall j :: i < j < n ==> items[..n][j].0 != Some(k);
      StoreAllLastWins(a, items[..n], i, k);
      match items[n].0
      case None =>
        assert IntKey(NextIndex(prev)) != k;
      case Some(k2) =>
        assert k2 != k;
    }
  }

  /** A string key that no assignment names keeps the value it had. */
  lemma {:induction false} StoreAllUntouched<V>(a: Arr<V>, items: seq<(Option<Key>, V)>, k: Key)
    requires k.StrKey?
    requires forall j :: 0 <= j < |items| ==> items[j].0 != Some(k)
    ensures Lookup(StoreAll(a, items), k) == Lookup(a, k)
    decreases |items|
  {
    if |items| > 0 {
      StoreAllUntouched(a, items[..|items| - 1], k);
    }
  }

  /** Well-formedness is pairwise distinctness of keys. */
  lemma {:induction false} WellFormedIffDistinct<V>(a: Arr<V>)
    ensures WellFormed(a) <==> forall i, j :: 0 <= i < j < |a| ==> a[i].0 != a[j].0
  {
    if |a| > 0 {
      WellFormedIffDistinct(a[1..]);
      LookupFindsEntry(a[1..], a[0].0);
      if WellFormed(a) {
        forall i, j | 0 <= i < j < |a|
          ensures a[i].0 != a[j].0
        {
          if i == 0 {
            assert KeysOf(a[1..])[j - 1] == a[j].0;
          } else {
            assert a[1..][i - 1] == a[i] && a[1..][j - 1] == a[j];
          }
        }
      }
      if forall i, j :: 0 <= i < j < |a| ==> a[i].0 != a[j].0 {
        forall i, j | 0 <= i < j < |a[1..]|
          ensures a[1..][i].0 != a[1..][j].0
        {
          assert a[1..][i] == a[i + 1] && a[1..][j] == a[j + 1];
        }
      }
    }
  }

  /** In a well-formed array, an entry's key does not occur before it. */
  lemma WellFormedPrefix<V>(a: Arr<V>, n: nat)
    requires WellFormed(a)
    requires n < |a|
    ensures WellFormed(a[..n])
    ensures !HasKey(a[..n], a[n].0)
  {
    WellFormedIffDistinct(a);
    WellFormedIffDistinct(a[..n]);
    LookupFindsEntry(a[..n], a[n].0);
  }

  /** Explicit assignments of the given entries, in order. */
  function Assignments<V>(entries: Arr<V>): (items: seq<(Option<Key>, V)>)
    ensures |items| == |entries|
    ensures forall j :: 0 <= j < |entries| ==> items[j] == (Some(entries[j].0), entries[j].1)
  {
    seq(|entries|, j requires 0 <= j < |entries| => (Some(entries[j].0), entries[j].1))
  }

  /** Assigning keys that are new and distinct appends the entries in order. */
  lemma {:induction false} StoreAllFresh<V>(a: Arr<V>, entries: Arr<V>)
    requires WellFormed(a + entries)
    ensures StoreAll(a, Assignments(entries)) == a + entries
    decreases |entries|
  {
    if |entries| > 0 {
      var n := |entries| - 1;
      var x := a + entries;
      WellFormedPrefix(x, |a| + n);
      assert x[..|a| + n] == a + entries[..n];
      assert Assignments(entries)[..n] == Assignments(entries[..n]);
      StoreAllFresh(a, entries[..n]);
      assert x[|a| + n] == entries[n];
      PutAppends(a + entries[..n], entries[n].0, entries[n].1);
      assert a + entries[..n] + [entries[n]] == x;
    }
  }

  /** `x` occurs in `y` in order, possibly with gaps. */
  predicate IsSubsequence<T(==)>(x: seq<T>, y: seq<T>)
    decreases |y|
  {
    |x| == 0 || (|y| > 0 && if x[0] == y[0] then IsSubsequence(x[1..], y[1..]) else IsSubsequence(x, y[1..]))
  }
}
