/**
 Alias resolution: `isAliasedProperty`, `unaliasPropertyName` and
 `unaliasProperties` over an alias table.

 `unaliasPropertyName` follows the table until it reaches a name that is not
 an alias, with no guard against cycles: the table builder removes an alias
 to itself, but a longer cycle (`a` to `b`, `b` to `a`) recurses for ever.
 Resolution of a name is therefore defined when its own chain ends
 (`Resolves`); a cycle elsewhere in the table does not matter to it.
 */
module Resolution {
  import opened Options
  import opened PhpArrays
  import opened Functions

  /** An alias table: alias name to target name. */
  type Table = Arr<string>

  /** `isAliasedProperty($name)`: the name is a key of the table. */
  predicate IsAliased(t: Table, name: string)
  {
    HasKey(t, StrKey(name))
  }

  /** `$this->_property_aliases[$name]` */
  function Target(t: Table, name: string): string
    requires IsAliased(t, name)
  {
    Lookup(t, StrKey(name)).value
  }

  /** The number of alias steps from `name` to a name that is not an alias,
      when that takes at most `fuel` steps. */
  function Chain(t: Table, name: string, fuel: nat): (steps: Option<nat>)
    ensures steps.Some? ==> steps.value <= fuel
    ensures steps == Some(0) <==> !IsAliased(t, name)
    decreases fuel
  {
    if !IsAliased(t, name) then Some(0)
    else if fuel == 0 then None
    else
      match Chain(t, Target(t, name), fuel - 1)
      case None => None
      case Some(d) => Some(d + 1)
  }

  /** The chain from `name` leaves the table within as many steps as the
      table has entries, which is exactly when `unaliasPropertyName($name)`
      ends at all (`ResolvesIffEnds`). */
  predicate Resolves(t: Table, name: string)
  {
    Chain(t, name, |t|).Some?
  }

  /** Every name resolves: no name leads into a cycle. */
  ghost predicate Acyclic(t: Table)
  {
    forall name :: Resolves(t, name)
  }

  /** More fuel does not change a chain that already ends. */
  lemma {:induction false} ChainMore(t: Table, name: string, fuel: nat, more: nat)
    requires Chain(t, name, fuel).Some?
    requires fuel <= more
    ensures Chain(t, name, more) == Chain(t, name, fuel)
    decreases fuel
  {
    if IsAliased(t, name) {
      ChainMore(t, Target(t, name), fuel - 1, more - 1);
    }
  }

  /** The number of steps from `name` to its resolution. */
  function Depth(t: Table, name: string): nat
    requires Resolves(t, name)
  {
    Chain(t, name, |t|).value
  }

  lemma DepthStep(t: Table, name: string)
    requires Resolves(t, name)
    requires IsAliased(t, name)
    ensures Resolves(t, Target(t, name))
    ensures Depth(t, Target(t, name)) + 1 == Depth(t, name)
  {
    ChainMore(t, Target(t, name), |t| - 1, |t|);
  }

  /** `unaliasPropertyName($name)`: a name that is not an alias is returned
      as it is; an alias is replaced by its target, which is resolved in
      turn. The result is never an alias. */
  function Unalias(t: Table, name: string): (r: string)
    requires Resolves(t, name)
    ensures !IsAliased(t, r)
    ensures !IsAliased(t, name) ==> r == name
    decreases Depth(t, name)
  {
    if !IsAliased(t, name) then name
    else
      DepthStep(t, name);
      Unalias(t, Target(t, name))
  }

  /** Resolving a resolved name changes nothing. */
  lemma UnaliasIdempotent(t: Table, name: string)
    requires Resolves(t, name)
    ensures Unalias(t, Unalias(t, name)) == Unalias(t, name)
  {
  }

  /** An alias resolves as its target does. */
  lemma UnaliasThroughTarget(t: Table, name: string)
    requires Resolves(t, name)
    requires IsAliased(t, name)
    ensures Resolves(t, Target(t, name)) && Unalias(t, name) == Unalias(t, Target(t, name))
  {
    DepthStep(t, name);
  }

  /** `steps` applications of the table to `name`, stopping early at a name
      that is not an alias. */
  function Follow(t: Table, name: string, steps: nat): string
    decreases steps
  {
    if steps == 0 || !IsAliased(t, name) then name
    else Follow(t, Target(t, name), steps - 1)
  }

  /** Following the table at least as many steps as the chain is long
      reaches the resolution. */
  lemma {:induction false} FollowReachesUnalias(t: Table, name: string, steps: nat)
    requires Resolves(t, name)
    requires Depth(t, name) <= steps
    ensures Follow(t, name, steps) == Unalias(t, name)
    decreases steps
  {
    if IsAliased(t, name) {
      DepthStep(t, name);
      FollowReachesUnalias(t, Target(t, name), steps - 1);
    }
  }

  /** Resolution is the table applied as many times as it has entries. */
  lemma UnaliasIsFollow(t: Table, name: string)
    requires Resolves(t, name)
    ensures Unalias(t, name) == Follow(t, name, |t|)
  {
    FollowReachesUnalias(t, name, |t|);
  }

  lemma {:induction false} CycleNeverEnds(t: Table, a: string, b: string, fuel: nat)
    requires Lookup(t, StrKey(a)) == Some(b)
    requires Lookup(t, StrKey(b)) == Some(a)
    ensures Chain(t, a, fuel).None? && Chain(t, b, fuel).None?
    decreases fuel
  {
    if fuel > 0 {
      CycleNeverEnds(t, a, b, fuel - 1);
    }
  }

  /** Two names that alias each other (or one name aliasing itself, when
      `a == b`) make the table cyclic: resolving either never ends. */
  lemma TwoCycleNotAcyclic(t: Table, a: string, b: string)
    requires Lookup(t, StrKey(a)) == Some(b)
    requires Lookup(t, StrKey(b)) == Some(a)
    ensures !Acyclic(t)
  {
    CycleNeverEnds(t, a, b, |t|);
    assert !Resolves(t, a);
  }

  /** Following `a` steps and then `b` more is following `a + b`. */
  lemma {:induction false} FollowAdd(t: Table, name: string, a: nat, b: nat)
    ensures Follow(t, name, a + b) == Follow(t, Follow(t, name, a), b)
    decreases a
  {
    if a > 0 && IsAliased(t, name) {
      FollowAdd(t, Target(t, name), a - 1, b);
    }
  }

  /** Once a name that is not an alias is reached, following stays there. */
  lemma FollowStays(t: Table, name: string, a: nat, b: nat)
    requires !IsAliased(t, Follow(t, name, a))
    requires a <= b
    ensures Follow(t, name, b) == Follow(t, name, a)
  {
    FollowAdd(t, name, a, b - a);
  }

  /** A chain that ends within `fuel` steps ends at a name that is not an
      alias, after exactly the steps it counts. */
  lemma {:induction false} ChainEndsAtFollow(t: Table, name: string, fuel: nat)
    requires Chain(t, name, fuel).Some?
    ensures !IsAliased(t, Follow(t, name, Chain(t, name, fuel).value))
    decreases fuel
  {
    if IsAliased(t, name) {
      ChainEndsAtFollow(t, Target(t, name), fuel - 1);
    }
  }

  /** A name that comes back to itself after `k` steps comes back again at
      some step beyond any bound. */
  lemma {:induction false} ReturnsBeyond(t: Table, name: string, k: nat, bound: nat) returns (s: nat)
    requires 0 < k && Follow(t, name, k) == name
    ensures bound <= s && Follow(t, name, s) == name
    decreases bound
  {
    if bound <= k {
      s := k;
    } else {
      var s' := ReturnsBeyond(t, name, k, bound - k);
      FollowAdd(t, name, k, s');
      s := k + s';
    }
  }

  /** An alias that the table leads back to itself, after any positive
      number of steps, never resolves, whatever the fuel. */
  lemma CycleNeverResolves(t: Table, name: string, k: nat, fuel: nat)
    requires IsAliased(t, name)
    requires 0 < k && Follow(t, name, k) == name
    ensures Chain(t, name, fuel).None?
  {
    if Chain(t, name, fuel).Some? {
      var d := Chain(t, name, fuel).value;
      ChainEndsAtFollow(t, name, fuel);
      var s := ReturnsBeyond(t, name, k, d);
      FollowStays(t, name, d, s);
      assert false;
    }
  }

  /** Any cycle through the table, of whatever length, makes it cyclic:
      `unaliasPropertyName` on a name of the cycle recurses for ever. */
  lemma CycleNotAcyclic(t: Table, name: string, k: nat)
    requires IsAliased(t, name)
    requires 0 < k && Follow(t, name, k) == name
    ensures !Acyclic(t)
  {
    CycleNeverResolves(t, name, k, |t|);
    assert !Resolves(t, name);
  }

  /** Some alias leads back to itself after a positive number of steps. */
  ghost predicate HasCycle(t: Table)
  {
    exists name, k: nat :: IsAliased(t, name) && 0 < k && Follow(t, name, k) == name
  }

  /** A chain that does not end within `fuel` steps passes only through
      aliases on the way. */
  lemma {:induction false} ChainNoneAliased(t: Table, name: string, fuel: nat, j: nat)
    requires Chain(t, name, fuel).None?
    requires j <= fuel
    ensures IsAliased(t, Follow(t, name, j))
    decreases j
  {
    if j > 0 {
      ChainNoneAliased(t, Target(t, name), fuel - 1, j - 1);
    }
  }

  /** The keys of the names met in the first `n` steps from `name`. */
  ghost function Reached(t: Table, name: string, n: nat): set<Key>
  {
    set j: nat | j <= n :: StrKey(Follow(t, name, j))
  }

  /** Steps that meet pairwise different names meet `n + 1` of them. */
  lemma {:induction false} ReachedCount(t: Table, name: string, n: nat)
    requires forall i: nat, j: nat :: i < j <= n ==> Follow(t, name, i) != Follow(t, name, j)
    ensures |Reached(t, name, n)| == n + 1
    decreases n
  {
    if n == 0 {
      assert Reached(t, name, 0) == {StrKey(Follow(t, name, 0))};
    } else {
      ReachedCount(t, name, n - 1);
      assert Reached(t, name, n) == Reached(t, name, n - 1) + {StrKey(Follow(t, name, n))};
    }
  }

  /** A chain that does not end within as many steps as the table has
      entries meets some alias twice. */
  lemma LongChainRepeats(t: Table, name: string) returns (i: nat, j: nat)
    requires !Resolves(t, name)
    ensures i < j <= |t| && Follow(t, name, i) == Follow(t, name, j)
  {
    if exists i: nat, j: nat :: i < j <= |t| && Follow(t, name, i) == Follow(t, name, j) {
      i, j :| i < j <= |t| && Follow(t, name, i) == Follow(t, name, j);
    } else {
      ReachedCount(t, name, |t|);
      forall k | k in Reached(t, name, |t|)
        ensures HasKey(t, k)
      {
        var j: nat :| j <= |t| && k == StrKey(Follow(t, name, j));
        ChainNoneAliased(t, name, |t|, j);
      }
      KeysBound(t, Reached(t, name, |t|));
      assert false;
    }
  }

  /** ... so the table has a cycle. */
  lemma LongChainHasCycle(t: Table, name: string)
    requires !Resolves(t, name)
    ensures HasCycle(t)
  {
    var i, j := LongChainRepeats(t, name);
    ChainNoneAliased(t, name, |t|, i);
    FollowAdd(t, name, i, j - i);
  }

  /** The chain from a name that is followed `i` steps ends as the rest of
      the chain from `name` does. */
  lemma {:induction false} ChainAfterFollow(t: Table, name: string, fuel: nat, i: nat)
    requires Chain(t, name, fuel).Some?
    requires i <= fuel
    ensures Chain(t, Follow(t, name, i), fuel - i).Some?
    decreases i
  {
    if i > 0 && IsAliased(t, name) {
      ChainAfterFollow(t, Target(t, name), fuel - 1, i - 1);
    }
  }

  /** A name that does not resolve within as many steps as the table has
      entries never resolves: `unaliasPropertyName` on it recurses for
      ever. */
  lemma ChainNeverEnds(t: Table, name: string, fuel: nat)
    requires !Resolves(t, name)
    ensures Chain(t, name, fuel).None?
  {
    if Chain(t, name, fuel).Some? {
      var i, j := LongChainRepeats(t, name);
      ChainNoneAliased(t, name, |t|, i);
      FollowAdd(t, name, i, j - i);
      ChainMore(t, name, fuel, fuel + i);
      ChainAfterFollow(t, name, fuel + i, i);
      CycleNeverResolves(t, Follow(t, name, i), j - i, fuel);
      assert false;
    }
  }

  /** The resolution of a name ends after some number of steps exactly when
      it ends within as many steps as the table has entries, so `Resolves`
      excludes just the names `unaliasPropertyName` never returns for. */
  lemma ResolvesIffEnds(t: Table, name: string)
    ensures Resolves(t, name) <==> exists fuel: nat :: Chain(t, name, fuel).Some?
  {
    if !Resolves(t, name) {
      forall fuel: nat
        ensures Chain(t, name, fuel).None?
      {
        ChainNeverEnds(t, name, fuel);
      }
    } else {
      assert Chain(t, name, |t|).Some?;
    }
  }

  /** Resolution ends for every name exactly when no alias leads back to
      itself: the tables `unaliasPropertyName` loops on are precisely the
      ones with a cycle, of any length. */
  lemma AcyclicIffNoCycle(t: Table)
    ensures Acyclic(t) <==> !HasCycle(t)
  {
    if HasCycle(t) {
      var name, k: nat :| IsAliased(t, name) && 0 < k && Follow(t, name, k) == name;
      CycleNotAcyclic(t, name, k);
    } else {
      forall name
        ensures Resolves(t, name)
      {
        if !Resolves(t, name) {
          LongChainHasCycle(t, name);
        }
      }
    }
  }

  /** A cycle among other aliases does not stop a plain name from resolving
      to itself, although the table as a whole has a cycle. */
  lemma UnrelatedCycle(c: string)
    requires c != "a" && c != "b"
    ensures var t := [(StrKey("a"), "b"), (StrKey("b"), "a")];
            !Acyclic(t) && Resolves(t, c) && Unalias(t, c) == c
  {
    var t := [(StrKey("a"), "b"), (StrKey("b"), "a")];
    TwoCycleNotAcyclic(t, "a", "b");
    assert Lookup(t[1..][1..], StrKey(c)) == None by { assert t[1..][1..] == []; }
    assert Lookup(t[1..], StrKey(c)) == None;
    assert !IsAliased(t, c);
  }

  lemma {:induction false} RankedChainEnds(t: Table, rank: string -> nat, name: string, fuel: nat)
    requires forall n :: IsAliased(t, n) ==> rank(Target(t, n)) < rank(n)
    requires rank(name) <= fuel
    ensures Chain(t, name, fuel).Some?
    decreases fuel
  {
    if IsAliased(t, name) {
      RankedChainEnds(t, rank, Target(t, name), fuel - 1);
    }
  }

  /** A table is acyclic when some rank, no larger than the table, drops at
      every alias step. */
  lemma RankedAcyclic(t: Table, rank: string -> nat)
    requires forall n :: IsAliased(t, n) ==> rank(Target(t, n)) < rank(n)
    requires forall n :: rank(n) <= |t|
    ensures Acyclic(t)
  {
    forall name
      ensures Resolves(t, name)
    {
      RankedChainEnds(t, rank, name, |t|);
    }
  }

  // ---------------------------------------------------------------------
  // unaliasProperties

  /** A key replaced by its resolution. Keys are property names whose
      resolution ends (`KeysResolve`): an integer key would make
      `unaliasPropertyName(string)` throw, and a name on the way into a
      cycle would recurse for ever, so neither gets here, and either is
      left as it is. */
  function ResolveKey(t: Table, k: Key): Key
  {
    match k
    case StrKey(name) => if Resolves(t, name) then StrKey(Unalias(t, name)) else k
    case IntKey(_) => k
  }

  /** Every key is a string whose resolution ends. */
  predicate KeysResolve<V>(t: Table, kvp: Arr<V>)
  {
    forall i :: 0 <= i < |kvp| ==> kvp[i].0.StrKey? && Resolves(t, kvp[i].0.s)
  }

  /** `unaliasProperties($kvp)`: every key replaced by its resolution, every
      value kept; a later key overwrites an earlier one that resolves to the
      same name. */
  function UnaliasProperties<V>(t: Table, kvp: Arr<V>): (r: Arr<V>)
    requires KeysResolve(t, kvp)
    ensures WellFormed(r)
  {
    MapKeyValue(kvp, (k: Key, v: V) => (Some(ResolveKey(t, k)), v))
  }

  /** No alias is left among the keys. */
  lemma UnaliasPropertiesNoAlias<V>(t: Table, kvp: Arr<V>, name: string)
    requires KeysResolve(t, kvp)
    requires IsAliased(t, name)
    ensures !HasKey(UnaliasProperties(t, kvp), StrKey(name))
  {
    MapKeyValueUnnamed(kvp, (k: Key, v: V) => (Some(ResolveKey(t, k)), v), StrKey(name));
  }

  /** The value stored under a resolved name is that of the last entry
      whose key resolves to it. */
  lemma UnaliasPropertiesLastWins<V>(t: Table, kvp: Arr<V>, i: nat, name: string)
    requires KeysResolve(t, kvp)
    requires i < |kvp| && Unalias(t, kvp[i].0.s) == name
    requires forall j :: i < j < |kvp| ==> Unalias(t, kvp[j].0.s) != name
    ensures Lookup(UnaliasProperties(t, kvp), StrKey(name)) == Some(kvp[i].1)
  {
    MapKeyValueLastWins(kvp, (k: Key, v: V) => (Some(ResolveKey(t, k)), v), i, StrKey(name));
  }

  /** A name no key resolves to is absent. */
  lemma UnaliasPropertiesUnnamed<V>(t: Table, kvp: Arr<V>, name: string)
    requires KeysResolve(t, kvp)
    requires forall j :: 0 <= j < |kvp| ==> Unalias(t, kvp[j].0.s) != name
    ensures !HasKey(UnaliasProperties(t, kvp), StrKey(name))
  {
    MapKeyValueUnnamed(kvp, (k: Key, v: V) => (Some(ResolveKey(t, k)), v), StrKey(name));
  }

  /** An array whose keys are already resolved comes back unchanged. */
  lemma UnaliasPropertiesResolved<V>(t: Table, kvp: Arr<V>)
    requires KeysResolve(t, kvp) && WellFormed(kvp)
    requires forall i :: 0 <= i < |kvp| ==> !IsAliased(t, kvp[i].0.s)
    ensures UnaliasProperties(t, kvp) == kvp
  {
    var f := (k: Key, v: V) => (Some(ResolveKey(t, k)), v);
    forall i | 0 <= i < |kvp|
      ensures f(kvp[i].0, kvp[i].1).0 == Some(kvp[i].0)
    {
      assert kvp[i].0 == StrKey(kvp[i].0.s);
    }
    MapKeyValueSameKeys(kvp, f);
    SameKeysAndValues(MapKeyValue(kvp, f), kvp);
  }
}
