/**
 The magic property methods `__get`, `__set`, `__isset` and `__unset` of the
 trait, for a class that has no parent implementing them: a name is first
 resolved through the alias table, then the resolved property of the object
 is read, written, tested or removed. Each needs only the name it is given
 to resolve; a cycle among other aliases does not stop it.

 The object's properties are a map from property name to value; a name that
 is absent is a property that does not exist (or was unset).
 */
module Accessors {
  import opened Options
  import opened Resolution

  /** A property value. PHP's `null` is a value of its own, which `isset`
      treats as absent. */
  datatype Value = Null | Bool(b: bool) | Int(i: int) | Str(s: string)

  /** The properties the object holds. */
  type Fields = map<string, Value>

  /** `__get($name)`: the value of the property the name resolves to, or
      None when the object has no such property (PHP then reports an
      undefined property and yields null). */
  function Get(t: Table, f: Fields, name: string): (r: Option<Value>)
    requires Resolves(t, name)
    ensures !IsAliased(t, name) ==> r == (if name in f then Some(f[name]) else None)
  {
    var p := Unalias(t, name);
    if p in f then Some(f[p]) else None
  }

  /** `__set($name, $value)`: the resolved property takes the value; every
      other property is left as it was. */
  function Set(t: Table, f: Fields, name: string, v: Value): (r: Fields)
    requires Resolves(t, name)
    ensures Get(t, r, name) == Some(v)
    ensures r.Keys == f.Keys + {Unalias(t, name)}
    ensures forall m :: m in f && m != Unalias(t, name) ==> r[m] == f[m]
    ensures !IsAliased(t, name) ==> r == f[name := v]
  {
    f[Unalias(t, name) := v]
  }

  /** `__isset($name)`: the property the name resolves to exists and is not
      null, which is exactly when reading the name yields a non-null value. */
  predicate Isset(t: Table, f: Fields, name: string): (b: bool)
    requires Resolves(t, name)
    ensures b <==> Get(t, f, name).Some? && Get(t, f, name).value != Null
  {
    var p := Unalias(t, name);
    p in f && f[p] != Null
  }

  /** `__unset($name)`: the resolved property is removed and nothing else
      changes; reading the name afterwards finds nothing. */
  function Unset(t: Table, f: Fields, name: string): (r: Fields)
    requires Resolves(t, name)
    ensures Get(t, r, name) == None && !Isset(t, r, name)
    ensures r.Keys == f.Keys - {Unalias(t, name)}
    ensures forall m :: m in r ==> r[m] == f[m]
  {
    f - {Unalias(t, name)}
  }

  /** Reading an alias reads its target. */
  lemma GetThroughAlias(t: Table, f: Fields, name: string)
    requires Resolves(t, name)
    requires IsAliased(t, name)
    ensures Resolves(t, Target(t, name)) && Get(t, f, name) == Get(t, f, Target(t, name))
  {
    UnaliasThroughTarget(t, name);
  }

  /** Writing an alias writes its target. */
  lemma SetThroughAlias(t: Table, f: Fields, name: string, v: Value)
    requires Resolves(t, name)
    requires IsAliased(t, name)
    ensures Resolves(t, Target(t, name)) && Set(t, f, name, v) == Set(t, f, Target(t, name), v)
  {
    UnaliasThroughTarget(t, name);
  }

  /** Two names that resolve to the same property share it: a value written
      through one is read through the other. */
  lemma SharedStorage(t: Table, f: Fields, written: string, read: string, v: Value)
    requires Resolves(t, written) && Resolves(t, read)
    requires Unalias(t, written) == Unalias(t, read)
    ensures Get(t, Set(t, f, written, v), read) == Some(v)
  {
  }

  /** Writing a name leaves every name that resolves elsewhere untouched. */
  lemma SetLeavesOthers(t: Table, f: Fields, written: string, read: string, v: Value)
    requires Resolves(t, written) && Resolves(t, read)
    requires Unalias(t, written) != Unalias(t, read)
    ensures Get(t, Set(t, f, written, v), read) == Get(t, f, read)
    ensures Isset(t, Set(t, f, written, v), read) == Isset(t, f, read)
  {
  }

  /** After a non-null value is written, the name is set. */
  lemma IssetAfterSet(t: Table, f: Fields, name: string, v: Value)
    requires Resolves(t, name)
    requires v != Null
    ensures Isset(t, Set(t, f, name, v), name)
  {
  }

  /** Unsetting a name whose property does not exist changes nothing. */
  lemma UnsetMissingIsNoOp(t: Table, f: Fields, name: string)
    requires Resolves(t, name)
    requires Get(t, f, name).None?
    ensures Unset(t, f, name) == f
  {
  }

  /** Unsetting through one name unsets every name resolving to the same
      property. */
  lemma UnsetShared(t: Table, f: Fields, removed: string, tested: string)
    requires Resolves(t, removed) && Resolves(t, tested)
    requires Unalias(t, removed) == Unalias(t, tested)
    ensures !Isset(t, Unset(t, f, removed), tested)
  {
  }
}
