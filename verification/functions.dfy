/**
 The helper combinators of `src/functions.php`: `pipe`, `map`, `mapKeyValue`,
 `filter` and `pregMatcher`, over PHP arrays.
 */
module Functions {
  import opened Options
  import opened PhpArrays

  /** `pipe($data, ...$fns)`: feed `x` through `fns`, first function first.
      PHP lets each stage change the type; here all stages share one type. */
  function Pipe<T>(x: T, fns: seq<T -> T>): T
    decreases |fns|
  {
    if |fns| == 0 then x else Pipe(fns[0](x), fns[1..])
  }

  /** Piping through two batches of functions is piping through the first
      batch and then through the second. */
  lemma {:induction false} PipeAppend<T>(x: T, fs: seq<T -> T>, gs: seq<T -> T>)
    ensures Pipe(x, fs + gs) == Pipe(Pipe(x, fs), gs)
    decreases |fs|
  {
    if |fs| == 0 {
      assert fs + gs == gs;
    } else {
      assert (fs + gs)[0] == fs[0];
      assert (fs + gs)[1..] == fs[1..] + gs;
      PipeAppend(fs[0](x), fs[1..], gs);
    }
  }

  /** Left to right: the last function listed is applied last; with no
      functions the data comes back unchanged. */
  lemma PipeLeftToRight<T>(x: T, fs: seq<T -> T>, g: T -> T)
    ensures Pipe(x, fs + [g]) == g(Pipe(x, fs))
    ensures Pipe(x, []) == x
  {
    PipeAppend(x, fs, [g]);
    assert Pipe(Pipe(x, fs), [g]) == Pipe(g(Pipe(x, fs)), []);
  }

  /** `map($array, $callable)` (`array_map` with one array): every value
      transformed, keys and order kept. */
  function Map<V, W>(a: Arr<V>, f: V -> W): (r: Arr<W>)
    ensures |r| == |a| && forall i :: 0 <= i < |a| ==> r[i] == (a[i].0, f(a[i].1))
    ensures KeysOf(r) == KeysOf(a)
    ensures forall k :: Lookup(r, k) == Lookup(a, k).Apply(f)
    ensures WellFormed(a) ==> WellFormed(r)
  {
    if |a| == 0 then []
    else
      var rest := Map(a[1..], f);
      assert ([(a[0].0, f(a[0].1))] + rest)[1..] == rest;
      [(a[0].0, f(a[0].1))] + rest
  }

  /** The assignments `mapKeyValue` performs: one callable result per entry. */
  function Calls<V, W>(a: Arr<V>, f: (Key, V) -> (Option<Key>, W)): (items: seq<(Option<Key>, W)>)
    ensures |items| == |a|
    ensures forall i :: 0 <= i < |a| ==> items[i] == f(a[i].0, a[i].1)
  {
    seq(|a|, i requires 0 <= i < |a| => f(a[i].0, a[i].1))
  }

  /** `mapKeyValue($iterable, $callable)`: visit the entries in order and
      store each callable result `[$k, $v]` under `$k`, or append it when
      `$k` is null. */
  function MapKeyValue<V, W>(a: Arr<V>, f: (Key, V) -> (Option<Key>, W)): (r: Arr<W>)
    ensures WellFormed(r)
  {
    StoreAll([], Calls(a, f))
  }

  /** The entry visited last among those whose callable result names key `k`
      decides the value stored under `k`. */
  lemma MapKeyValueLastWins<V, W>(a: Arr<V>, f: (Key, V) -> (Option<Key>, W), i: nat, k: Key)
    requires i < |a|
    requires f(a[i].0, a[i].1).0 == Some(k)
    requires forall j :: i < j < |a| ==> f(a[j].0, a[j].1).0 != Some(k)
    ensures Lookup(MapKeyValue(a, f), k) == Some(f(a[i].0, a[i].1).1)
  {
    StoreAllLastWins([], Calls(a, f), i, k);
  }

  /** A string key that no callable result names is absent from the result. */
  lemma MapKeyValueUnnamed<V, W>(a: Arr<V>, f: (Key, V) -> (Option<Key>, W), k: Key)
    requires k.StrKey?
    requires forall j :: 0 <= j < |a| ==> f(a[j].0, a[j].1).0 != Some(k)
    ensures !HasKey(MapKeyValue(a, f), k)
  {
    StoreAllUntouched([], Calls(a, f), k);
  }

  /** Visiting one more entry whose callable result has a null key appends
      that value under a fresh integer index, one past the largest so far. */
  lemma MapKeyValueNullKeyAppends<V, W>(a: Arr<V>, e: (Key, V), f: (Key, V) -> (Option<Key>, W))
    requires f(e.0, e.1).0.None?
    ensures var before := MapKeyValue(a, f);
            && MapKeyValue(a + [e], f) == before + [(IntKey(NextIndex(before)), f(e.0, e.1).1)]
            && !HasKey(before, IntKey(NextIndex(before)))
  {
    var before := MapKeyValue(a, f);
    assert Calls(a + [e], f)[..|a|] == Calls(a, f);
    PutAppends(before, IntKey(NextIndex(before)), f(e.0, e.1).1);
  }

  /** When every callable result keeps the entry's own key, `mapKeyValue`
      keeps keys and order and transforms only the values. */
  lemma MapKeyValueSameKeys<V, W>(a: Arr<V>, f: (Key, V) -> (Option<Key>, W))
    requires WellFormed(a)
    requires forall i :: 0 <= i < |a| ==> f(a[i].0, a[i].1).0 == Some(a[i].0)
    ensures KeysOf(MapKeyValue(a, f)) == KeysOf(a)
    ensures forall i :: 0 <= i < |a| ==> MapKeyValue(a, f)[i].1 == f(a[i].0, a[i].1).1
  {
    var entries := seq(|a|, i requires 0 <= i < |a| => (a[i].0, f(a[i].0, a[i].1).1));
    assert KeysOf(entries) == KeysOf(a);
    assert Calls(a, f) == Assignments(entries);
    WellFormedIffDistinct(a);
    WellFormedIffDistinct(entries);
    assert [] + entries == entries;
    StoreAllFresh([], entries);
    assert MapKeyValue(a, f) == entries;
  }

  /** A `mapKeyValue` whose callable returns each entry's own key and a
      value computed from the old value alone is a `map`. */
  lemma MapKeyValueKeepingKeys<V, W>(a: Arr<V>, f: (Key, V) -> (Option<Key>, W), g: V -> W)
    requires WellFormed(a)
    requires forall k, v :: f(k, v) == (Some(k), g(v))
    ensures MapKeyValue(a, f) == Map(a, g)
  {
    MapKeyValueSameKeys(a, f);
    SameKeysAndValues(MapKeyValue(a, f), Map(a, g));
  }

  /** `filter($array, $callable, ARRAY_FILTER_USE_BOTH)`: keep the entries
      whose value and key satisfy `p`, with their keys, in order. */
  function FilterWithKeys<V(!new)>(a: Arr<V>, p: (V, Key) -> bool): (r: Arr<V>)
    ensures forall e :: e in r <==> e in a && p(e.1, e.0)
    ensures IsSubsequence(r, a)
    ensures WellFormed(a) ==> WellFormed(r)
    ensures WellFormed(a) ==> forall k :: Lookup(r, k) == if HasKey(a, k) && p(Lookup(a, k).value, k) then Lookup(a, k) else None
  {
    if |a| == 0 then []
    else
      var rest := FilterWithKeys(a[1..], p);
      assert forall e :: e in a <==> e == a[0] || e in a[1..];
      if p(a[0].1, a[0].0) then
        assert ([a[0]] + rest)[1..] == rest;
        [a[0]] + rest
      else
        rest
  }

  /** `filter($array, $callable)`: keep the entries whose value satisfies
      `p`, with their keys, in order. */
  function Filter<V(!new)>(a: Arr<V>, p: V -> bool): (r: Arr<V>)
    ensures forall e :: e in r <==> e in a && p(e.1)
    ensures IsSubsequence(r, a)
    ensures WellFormed(a) ==> WellFormed(r)
    ensures WellFormed(a) ==> forall k :: Lookup(r, k) == if HasKey(a, k) && p(Lookup(a, k).value) then Lookup(a, k) else None
  {
    FilterWithKeys(a, (v: V, k: Key) => p(v))
  }

  /** A hand-coded regular expression: the capture groups of its first match
      (group 0 is the whole match), or None when it does not match. */
  type Pattern = string -> Option<seq<string>>

  /** `pregMatcher($regexp, $subject)`: the match groups, or an empty array
      when the pattern does not match. */
  function PregMatcher(pattern: Pattern, subject: string): (groups: seq<string>)
    ensures pattern(subject).None? ==> groups == []
    ensures pattern(subject).Some? ==> groups == pattern(subject).value
  {
    match pattern(subject)
    case None => []
    case Some(g) => g
  }
}
